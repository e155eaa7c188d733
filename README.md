# Kanban board core in Dafny

This project models the state logic of a single-user kanban board that runs in the browser.
The board has four fixed columns: `notStarted`, `inProgress`, `blocked` and `done`. Each
column holds an ordered list of tasks, and each task may carry subtasks. The model covers:

- the entity types and the seed board;
- start-up loading, with validation of a stored board;
- the drag interpreter: drag start and drag end, either a cross-column move or a same-column
  `arrayMove`;
- save (upsert), delete and the subtask toggle of the board store;
- the task form's handlers: open/reset, adding, toggling and deleting subtasks, and submit.

Modules:

- `Types` (types.dfy): column ids and their names, `Subtask`, `Task`, `Column`, and `Board`,
  a record with one column per key.
- `TaskLists` (tasklists.dfy): the array operations the handlers apply to a column's list.
  These are `some`, `findIndex`, `find`, the filter by id, the map by id, `splice` insertion
  and dnd-kit's `arrayMove`.
- `Invariants` (invariants.dfy): the board invariant `Valid`, which has three parts:
  - every column sits under its own key;
  - every task's `columnId` names the column that holds it;
  - every task id occurs once on the board, counted with a multiset.
- `Constants` (constants.dfy): `COLUMN_IDS` and the seed board. The uuids and dates the seed
  takes from the generator and the clock are a `SeedValues` parameter.
- `BoardOps` (boardops.dfy): each handler's effect on the board, written as a function from the
  old board to the new one. Lemmas here state the effect of each handler and show that it
  preserves `Valid`.
- `Persistence` (persistence.dfy): the lazy initializer, which takes an abstract `Stored`
  value. `ValidateDocument` is the `forEach` check written as a loop.
- `Store` (store.dfy): class `BoardStore` holds `boardData` and `activeTask`, and its methods
  are the handlers.
  - `SaveTask` filters the copied board column by column in a `for` loop.
  - `ToggleSubtask` hands its copy to `ToggleSubtaskOnCopy`, the updater passed to
    `setBoardData`. That method walks `COLUMN_IDS` with a `while` loop that `break`s at the
    first column holding the task.
  - `DragEnd`, `SaveTask`, `ConfirmDelete` and `ToggleSubtask` are each proved equal to the
    `BoardOps` function for their handler, and each keeps `Valid`. `DragStart` leaves the
    board unchanged and only sets the active task.
- `TaskForm` (taskform.dfy): the form state and its handlers, written as functions. It also
  models ECMAScript's `String.prototype.trim`, with its white-space set.

Two behaviours of the code are worth stating outright:

- **Save.** `handleSaveTask` filters the task out of every column before the replace branch at
  `src/App.tsx:192-195`, so that branch never runs and an edited task always moves to the end
  of its column. `BoardOps.SaveTaskAppends` proves this.
- **Reorder.** Dropping `A` onto `C` in `[A,B,C,D]` gives `[B,C,A,D]`, because `arrayMove`
  takes `A` out and puts it at `C`'s old index. `TaskLists.ArrayMoveExamples` proves this.

## Model

| member | source | states |
|---|---|---|
| Types.ParseColumnId | src/App.tsx:92-93 | An id read as a column key yields a column whose name is that id, or none exactly when no column has that name |
| Types.NameRoundTrip | src/types/index.ts:1 | The four column ids have four distinct names, and reading a column's name gives that column back |
| Types.Board.With | src/App.tsx:103-126 | Replacing the entry under one key sets that key and keeps the other three |
| Types.BoardExtensionality | src/types/index.ts:24 | A board is determined by its four entries |
| TaskLists.HasIffCounted | src/App.tsx:68 | `some` by id holds exactly when the id is counted in the list's ids |
| TaskLists.FindIndex | src/App.tsx:133-135 | `findIndex` gives the first position holding the id, or -1 exactly when no task has it |
| TaskLists.FindIndexOnlyReadsIds | src/App.tsx:133 | `findIndex` depends only on the list's ids |
| TaskLists.FindSubtaskIndex | src/App.tsx:246-248 | The first subtask position holding the id, or -1 exactly when none has it |
| TaskLists.Find | src/App.tsx:76 | `find` gives the first task in the list with the id, the one at `findIndex`'s position, or nothing exactly when no task has it |
| TaskLists.RemoveId | src/App.tsx:105-107 | The filter keeps exactly the tasks with other ids, is no longer than the list, and is the list itself when the id is absent |
| TaskLists.RemoveIdCounts | src/App.tsx:222-224 | Filtering zeroes the id's count and keeps every other id's count |
| TaskLists.RemoveIdAppend | src/App.tsx:222-224 | Filtering distributes over concatenation, so the kept tasks stay in order |
| TaskLists.RemoveIdIdempotent | src/App.tsx:222-224 | Filtering twice is filtering once |
| TaskLists.ReplaceById | src/App.tsx:193-195 | Every task with the id is replaced by the new task, and all others are kept in place |
| TaskLists.InsertAt | src/App.tsx:113-118 | `splice(i, 0, x)` puts `x` at `i`, shifts the later tasks up by one and adds `x` to the multiset |
| TaskLists.ArrayMove | src/App.tsx:143 | `arrayMove` gives a permutation of the same length with the moved element at `to`. Only the elements between the two indices shift, by one |
| TaskLists.ArrayMoveSamePosition | src/App.tsx:143 | Moving an element onto its own index changes nothing |
| TaskLists.ArrayMoveUndo | src/App.tsx:143 | Moving back from `to` to `from` restores the list |
| TaskLists.ArrayMoveExamples | src/App.tsx:133-143 | In four tasks, first onto third gives `[B,C,A,D]`, and last onto first gives `[D,A,B,C]` |
| TaskLists.IdsArrayMove | src/App.tsx:143 | Moving tasks moves their ids the same way |
| TaskLists.IdsInsertAt | src/App.tsx:115-118 | Inserting a task inserts its id |
| Invariants.IdBagWith | src/types/index.ts:24 | Replacing one column trades that column's ids for the new column's ids |
| Invariants.OneColumnPerTask | src/types/index.ts:18-24 | On a board with unique ids, a task id lives in at most one column |
| Invariants.OnePositionPerTask | src/types/index.ts:18-24 | On a board with unique ids, a task id is at most one position of a column |
| Invariants.TaskLivesInItsColumn | src/types/index.ts:9-24 | On a valid board, a task's `columnId` and its column's `id` both name the key it sits under, and no other column holds its id |
| Invariants.ReplaceColumnKeepsAgreement | src/types/index.ts:18-24 | Putting a column whose id and tasks name key `c` under `c` keeps the keying and agreement parts of the invariant |
| Constants.ColumnIndex | src/constant/index.ts:4-9 | `COLUMN_IDS` lists every column id, each exactly once |
| Constants.TasksInColumn | src/constant/index.ts:60 | The filter by `columnId` keeps exactly the tasks naming that column |
| Constants.TasksInColumnAppend | src/constant/index.ts:60 | The filter by `columnId` distributes over concatenation, so it keeps the matching tasks in order and with their multiplicity |
| Constants.InitialColumnsContents | src/constant/index.ts:11-77 | The seed columns hold tasks 1-2, 3, 4 and 5 of the seed list, in order |
| Constants.InitialColumnsKeyedAndTitled | src/constant/index.ts:11-77 | Every seed column's `id` is its key, and every seed task has a non-empty title |
| Constants.SplitFirstColumns | src/constant/index.ts:56-65 | Five tasks naming Not Started twice, then In Progress, Blocked and Done, filter to the first two tasks for Not Started and the third for In Progress |
| Constants.SplitLastColumns | src/constant/index.ts:66-77 | For the same five tasks, the filter for Blocked gives the fourth task and the filter for Done the fifth |
| Constants.InitialColumnsIds | src/constant/index.ts:56-77 | The seed board holds exactly the seed tasks' ids |
| Constants.InitialColumnsAgree | src/constant/index.ts:56-77 | Every seed task sits in the column its `columnId` names |
| Constants.InitialColumnsValid | src/constant/index.ts:11-77 | With distinct uuids, the seed board satisfies the board invariant |
| BoardOps.FirstColumnWith | src/App.tsx:241-245 | The first column in the given order holding the id, or none exactly when no listed column holds it |
| BoardOps.FirstColumnWithOnlyReadsIds | src/App.tsx:241-245 | Which column is found first depends only on the ids the columns hold |
| BoardOps.FindColumnContainingTask | src/App.tsx:66-70 | A column holding the task, or none exactly when no column holds it |
| BoardOps.ResolveOver | src/App.tsx:92-93 | The drop target is the column under the key `overId` when it is a column name; otherwise a column holding a task with that id; none exactly when neither exists |
| BoardOps.FindColumnOnValidBoard | src/App.tsx:66-70 | On a valid board, the column found is the one holding the task |
| BoardOps.DropResolves | src/App.tsx:90-93 | On a valid board, the active task's column and the drop target resolve to the columns under their own keys |
| BoardOps.DragEnd | src/App.tsx:81-95 | With no drop target, an active id no column holds, or a target that resolves to nothing, the board is unchanged |
| BoardOps.DropOnItself | src/App.tsx:130 | Dropping a task on itself is a no-op |
| BoardOps.CrossMove | src/App.tsx:98-128 | A missing active task leaves the board unchanged, and the two columns not involved are kept; `CrossDropUnfolds` and `CrossColumnDrop` give its full effect |
| BoardOps.Arrive | src/App.tsx:110-121 | The destination list gains exactly the moved task. With an over-task, the moved task sits at the over-task's old index, immediately before it, and the tasks before and after are kept. Without one, it is appended |
| BoardOps.CrossDropUnfolds | src/App.tsx:97-128 | A drag whose ends resolve to two different columns filters the task out of the first and puts it, with `columnId` rewritten, into the second as `Arrive` says |
| BoardOps.CrossColumnDrop | src/App.tsx:97-128 | A cross-column drop on a valid board removes the task from its column. The task, with its `columnId` rewritten, arrives in the target column as `Arrive` says. The other two columns are unchanged |
| BoardOps.DropIndex | src/App.tsx:135-141 | The target index is the over-task's index, the last index when the target is the column itself, and -1 (no move) otherwise |
| BoardOps.Reorder | src/App.tsx:131-151 | Only the active task's column can change, keeping its id and title, and a missing active task leaves the board unchanged; `SameColumnDrop` gives its full effect |
| BoardOps.SameColumnDrop | src/App.tsx:129-151 | A same-column drop on a valid board is `arrayMove` to the over-task's index, or to the last index when the target is the column; nothing else changes |
| BoardOps.TransferKeepsIds | src/App.tsx:103-126 | Moving one copy of an id between two columns keeps the board's ids |
| BoardOps.RemoveFromColumn | src/App.tsx:103-108 | Taking the task out of its column removes exactly one copy of its id, and every task left still names that column |
| BoardOps.AddToColumn | src/App.tsx:113-126 | Inserting or appending a task that names the column adds one copy of its id and keeps the column agreeing |
| BoardOps.CrossMoveKeepsInvariant | src/App.tsx:97-128 | A cross-column move on a valid board keeps it valid and keeps its ids |
| BoardOps.MoveWithinColumnKeepsInvariant | src/App.tsx:143-150 | An array move inside a column keeps the board valid and keeps its ids |
| BoardOps.ReorderKeepsInvariant | src/App.tsx:130-151 | A same-column reorder on a valid board keeps it valid and keeps its ids |
| BoardOps.DropKeepsInvariant | src/App.tsx:95-151 | A drop whose ends resolve to two columns of a valid board keeps it valid and keeps its ids |
| BoardOps.DragEndKeepsInvariant | src/App.tsx:81-154 | Every drag end on a valid board keeps it valid and keeps its ids |
| BoardOps.DeleteTask | src/App.tsx:215-228 | Every column keeps its id and title, and its tasks become the filter by id. Deleting an id no column holds is a no-op |
| BoardOps.DeleteRemovesOnlyId | src/App.tsx:219-226 | After a delete, no column holds the id, and each column keeps exactly its other tasks |
| BoardOps.DeleteIdempotent | src/App.tsx:215-228 | Deleting twice is deleting once |
| BoardOps.DeleteColumnCounts | src/App.tsx:219-226 | Delete zeroes the id's count on the board and keeps every other id's count |
| BoardOps.DeleteKeepsInvariant | src/App.tsx:215-228 | Delete zeroes the id's count, keeps every other id's count, and keeps a valid board valid |
| BoardOps.SaveTask | src/App.tsx:178-200 | The target column becomes its filtered tasks plus the saved task at the end. Every other column is filtered, and ids and titles are kept |
| BoardOps.SaveTaskAppends | src/App.tsx:189-198 | The replace branch never runs: save always appends to the cleared target column |
| BoardOps.AppendCounts | src/App.tsx:197 | Appending a task adds its id to the board's ids once |
| BoardOps.SaveTaskCounts | src/App.tsx:183-198 | After a save, the task's id occurs exactly once and every other id keeps its count |
| BoardOps.SaveTaskPlacesLast | src/App.tsx:183-198 | After a save, the task is last in column `task.columnId` and no other column holds its id |
| BoardOps.SaveTaskKeepsInvariant | src/App.tsx:178-202 | A save keeps a valid board valid |
| BoardOps.ToggleTask | src/App.tsx:246-258 | Only the first subtask with the id flips `completed`. Ids, texts, order, length and every other task field are kept, and a task without subtasks is unchanged |
| BoardOps.ToggleTaskInvolutive | src/App.tsx:246-258 | Toggling a task's subtask twice restores the task |
| BoardOps.ToggleSubtask | src/App.tsx:238-264 | A missing task leaves the board unchanged, and every column keeps its ids position by position |
| BoardOps.ToggleSubtaskEffect | src/App.tsx:238-264 | On a valid board, the toggle lands on the one task with the id and changes nothing else |
| BoardOps.ToggleSubtaskInvolutive | src/App.tsx:238-264 | Toggling twice restores the board |
| BoardOps.SameIdsSameBag | src/App.tsx:240 | Boards holding the same ids column by column count the same ids |
| BoardOps.UpdateKeepsAgreement | src/App.tsx:254-258 | Replacing one task with one naming the same column keeps the column agreeing |
| BoardOps.ToggleKeepsInvariant | src/App.tsx:238-264 | A toggle keeps the board's ids and keeps a valid board valid |
| Persistence.DocumentValidIffAllKeys | src/App.tsx:34-36 | Checking the ids of `COLUMN_IDS` is checking every column key |
| Persistence.ToBoard | src/App.tsx:32-37 | The parsed document, taken as a board, has every key's entry as its column |
| Persistence.Serialize | src/App.tsx:56 | A written board has an entry with tasks under every key and passes the start-up check |
| Persistence.Load | src/App.tsx:28-44 | A document that passes the check is used as it stands. Anything else yields the seed board: absent data, a parse failure, or a document missing a key or a `tasks` |
| Persistence.LoadSaveRoundTrip | src/App.tsx:28-44 | A written board reads back as itself |
| Persistence.LoadKeepsValid | src/App.tsx:28-44 | Start-up gives a valid board when the seed ids are distinct and a stored board was valid |
| Persistence.ValidateDocument | src/App.tsx:33-36 | The flag computed by the `forEach` equals the start-up check |
| Persistence.LoadBoard | src/App.tsx:28-44 | The initializer computes `Load` |
| Store.BoardStore.constructor | src/App.tsx:28-46 | The store starts from the loaded board with no active task |
| Store.BoardStore.DragStart | src/App.tsx:72-79 | The board is unchanged. A found task becomes the active task; otherwise the active task is kept |
| Store.BoardStore.DragEnd | src/App.tsx:81-154 | The active task is cleared, and the board becomes the drag-end result, keeping validity and ids |
| Store.BoardStore.SaveTask | src/App.tsx:178-202 | The loop-built board equals the save function, the id occurs once, and validity is kept |
| Store.BoardStore.ConfirmDelete | src/App.tsx:215-231 | With no pending task nothing changes; otherwise the board becomes the delete of its id, and validity is kept |
| Store.BoardStore.ToggleSubtask | src/App.tsx:238-265 | The board becomes the toggle function's result, and validity is kept |
| Store.ToggleSubtaskOnCopy | src/App.tsx:239-263 | The loop with `break` over `COLUMN_IDS` computes the toggle function |
| TaskForm.LeadingSpaces | src/components/TaskForm.tsx:98 | The input starts with exactly that many white-space characters |
| TaskForm.TrailingSpacesStart | src/components/TaskForm.tsx:98 | The input ends with white space from exactly that index on |
| TaskForm.Trim | src/components/TaskForm.tsx:98-102 | A substring with only white space around it, neither starting nor ending with white space, and empty exactly when the input is all white space |
| TaskForm.TrimOfTrimmed | src/components/TaskForm.tsx:101 | A string that neither starts nor ends with white space is its own trim |
| TaskForm.TrimIdempotent | src/components/TaskForm.tsx:101 | Trimming twice is trimming once |
| TaskForm.Prefix10 | src/components/TaskForm.tsx:62 | `substring(0, 10)` is the prefix of length ten, or the whole string when it is shorter |
| TaskForm.OnOpen | src/components/TaskForm.tsx:56-73 | Opening for an edit fills the fields from the task: missing values become empty and the due date is cut to ten characters. Opening for a new task clears all fields. A closed form is unchanged |
| TaskForm.AddSubtask | src/components/TaskForm.tsx:75-82 | Blank input changes nothing. Otherwise one unchecked subtask with the trimmed text and the fresh id is appended, the input is cleared and nothing else changes |
| TaskForm.ToggleSubtasks | src/components/TaskForm.tsx:85-91 | Length, order, ids and texts are kept, and `completed` flips exactly on the subtasks with the id |
| TaskForm.ToggleSubtasksInvolutive | src/components/TaskForm.tsx:85-91 | Toggling twice restores the list |
| TaskForm.DeleteSubtasks | src/components/TaskForm.tsx:93-95 | Exactly the subtasks with other ids are kept |
| TaskForm.DeleteSubtasksMissing | src/components/TaskForm.tsx:93-95 | Deleting an id no subtask has keeps the list |
| TaskForm.DeleteSubtasksIdempotent | src/components/TaskForm.tsx:93-95 | Deleting twice is deleting once |
| TaskForm.DeleteSubtasksAppend | src/components/TaskForm.tsx:93-95 | Deleting distributes over concatenation, so the kept subtasks stay in order |
| TaskForm.AddThenDelete | src/components/TaskForm.tsx:75-95 | Deleting a subtask just added under a fresh id restores the list |
| TaskForm.Submit | src/components/TaskForm.tsx:97-110 | A blank title saves nothing. Otherwise the title is trimmed, and an edit keeps its id and column. A new task gets the fresh id and the default column, or `notStarted`. A blank description becomes none, the due date is converted when set, and the subtask list is always present |
| TaskForm.TrimmedIsKept | src/components/TaskForm.tsx:98-102 | A trimmed, non-empty string is not blank and trims to itself |
| TaskForm.EditKeepsDescription | src/components/TaskForm.tsx:56-110 | Opening and submitting a normalized task keeps its description |
| TaskForm.EditConvertsDueDate | src/components/TaskForm.tsx:56-110 | Opening and submitting converts the due date cut to ten characters; no due date stays none |
| TaskForm.EditRoundTrip | src/components/TaskForm.tsx:56-110 | Opening a normalized task and submitting it unchanged gives the task back, apart from the re-converted due date |

## Left out

- Browser storage and JSON: `localStorage` reads and writes and `JSON.parse`/`JSON.stringify`
  are outside the model. Load takes a `Stored` value: absent or empty, unparseable, or a parsed
  document. The effect that writes the board after every change is not modelled;
  `Persistence.Serialize` stands for the written form.
- A parsed value that is not an object, such as `null` or a number, also yields the seed board
  in the source. The model folds it into `Unparseable`.
- Extra keys in a stored document are not represented. Neither is a truthy `tasks` that is not
  a list, which the source accepts.
- Persistence.Load: a stored document is taken as a board without checking the board
  invariant, as the source does. `LoadKeepsValid` covers only documents written from a valid
  board.
- BoardOps.Reorder: when a column's `id` differs from its key, `findIndex` can return -1 for
  the old index. dnd-kit's `arrayMove` would then move the last task. The model returns the
  board unchanged in that case, which cannot arise on a board satisfying `Valid`.
- dnd-kit sensors, collision detection, the drag overlay and the drop animation are left out,
  because they belong to a foreign library. The active and over ids are plain parameters.
- `uuidv4` and the clock are left out: ids are parameters (`freshId`, `SeedValues`), and so
  are the seed's due dates.
- `new Date(dueDate).toISOString()` is the parameter `toIso`. The `RangeError` it throws on an
  invalid date is not modelled.
- The dialog open/close flags and the `taskToEdit`, `taskToDelete` and
  `defaultColumnForNewTask` state only sequence the interface and are not modelled. This
  covers `handleOpenTaskForm`, `handleCloseTaskForm`, `requestDeleteTask` and
  `handleCloseDeleteModal`. `ConfirmDelete` takes the pending task as a parameter.
- BoardOps.FindColumnContainingTask: the source walks `Object.values(boardData)`, which follows
  the key order of the object. The model searches in `COLUMN_IDS` order. The seed board and
  every board the handlers build keep that key order. The two orders differ only for a stored
  document written with its keys in another order that holds one id in two columns; on a board
  satisfying `Valid` the result does not depend on the order (`FindColumnOnValidBoard`).
- Loaded documents are typed: a column entry has an `id` that is a column name, a `title` and a
  list of tasks, and every task has all its fields. The start-up check looks only for each key
  and a truthy `tasks`, so the source also accepts entries whose `id` or `title` is missing or
  is not a column name, and tasks with missing fields. Those documents are not represented.
- BoardOps.DeleteTask: `for...in` visits the object's keys in insertion order. The model
  filters the four keys in a fixed order. The result does not depend on the order.
- Rendering is left out: `TaskCard.tsx`, `Column.tsx`, `KanbanBoard.tsx` and
  `DeleteConfirmationDialog.tsx`. So are the urgency computed from the clock and the
  floating-point progress percentage.
- Strings are sequences of Unicode scalar values. JavaScript's UTF-16 code units and surrogate
  pairs are not modelled, so `substring(0, 10)` counts characters rather than code units.
