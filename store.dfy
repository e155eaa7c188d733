/** The board store of the application component: the board and the task being dragged, with
    the handlers that update them. `handleSaveTask` and `handleToggleSubtask` work on a deep
    copy they change step by step; the other handlers compute the new board as a value. */
module Store {
  import opened Types
  import opened TaskLists
  import opened Invariants
  import opened Constants
  import BoardOps
  import opened Persistence

  class BoardStore {
    var boardData: Board
    var activeTask: Option<Task>

    /** The lazy initializer: the stored board when it passes the start-up check, else the
        seed; nothing is being dragged. */
    constructor (stored: Stored, seed: SeedValues)
      ensures boardData == Load(stored, seed)
      ensures activeTask == None
    {
      var b := LoadBoard(stored, seed);
      boardData := b;
      activeTask := None;
    }

    /** `handleDragStart`: remembers the dragged task when some column holds it. */
    method DragStart(activeId: string)
      modifies this
      ensures boardData == old(boardData)
      ensures (exists c :: Has(boardData.Get(c).tasks, activeId)) ==>
        && activeTask.Some? && activeTask.value.id == activeId
        && exists c :: activeTask.value in boardData.Get(c).tasks
      ensures (forall c :: !Has(boardData.Get(c).tasks, activeId)) ==> activeTask == old(activeTask)
    {
      var column := BoardOps.FindColumnContainingTask(boardData, activeId);
      if column.Some? {
        var task := Find(column.value.tasks, activeId);
        activeTask := task;
      }
    }

    /** `handleDragEnd`: the drag is over, and the board becomes the drop's result. */
    method DragEnd(activeId: string, overId: Option<string>)
      modifies this
      ensures activeTask == None
      ensures boardData == BoardOps.DragEnd(old(boardData), activeId, overId)
      ensures old(Valid(boardData)) ==> Valid(boardData) && IdBag(boardData) == old(IdBag(boardData))
    {
      activeTask := None;
      if Valid(boardData) {
        BoardOps.DragEndKeepsInvariant(boardData, activeId, overId);
      }
      boardData := BoardOps.DragEnd(boardData, activeId, overId);
    }

    /** `handleSaveTask`: on a copy, filter the task's id out of every column in `COLUMN_IDS`
        order, then replace it in, or push it onto, its target column. */
    method SaveTask(task: Task)
      modifies this
      ensures activeTask == old(activeTask)
      ensures boardData == BoardOps.SaveTask(old(boardData), task)
      ensures IdBag(boardData)[task.id] == 1
      ensures old(Valid(boardData)) ==> Valid(boardData)
    {
      var prev := boardData;
      var nb := prev;
      for k := 0 to |ColumnIds|
        invariant forall c :: ColumnIndex(c) < k ==>
                    nb.Get(c) == prev.Get(c).(tasks := RemoveId(prev.Get(c).tasks, task.id))
        invariant forall c :: ColumnIndex(c) >= k ==> nb.Get(c) == prev.Get(c)
      {
        var colId := ColumnIds[k];
        nb := nb.With(colId, nb.Get(colId).(tasks := RemoveId(nb.Get(colId).tasks, task.id)));
      }
      BoardExtensionality(nb, BoardOps.DeleteTask(prev, task.id));
      var target := nb.Get(task.columnId);
      if Has(target.tasks, task.id) {
        nb := nb.With(task.columnId, target.(tasks := ReplaceById(target.tasks, task)));
      } else {
        nb := nb.With(task.columnId, target.(tasks := target.tasks + [task]));
      }
      BoardOps.SaveTaskCounts(prev, task);
      if Valid(prev) {
        BoardOps.SaveTaskKeepsInvariant(prev, task);
      }
      boardData := nb;
    }

    /** `handleConfirmDelete`: with no task awaiting confirmation nothing happens; otherwise
        its id is filtered out of every column. */
    method ConfirmDelete(taskToDelete: Option<Task>)
      modifies this
      ensures activeTask == old(activeTask)
      ensures taskToDelete.None? ==> boardData == old(boardData)
      ensures taskToDelete.Some? ==> boardData == BoardOps.DeleteTask(old(boardData), taskToDelete.value.id)
      ensures old(Valid(boardData)) ==> Valid(boardData)
    {
      if taskToDelete.Some? {
        BoardOps.DeleteKeepsInvariant(boardData, taskToDelete.value.id);
        boardData := BoardOps.DeleteTask(boardData, taskToDelete.value.id);
      }
    }

    /** `handleToggleSubtask`: the board becomes its updated copy. */
    method ToggleSubtask(taskId: string, subtaskId: string)
      modifies this
      ensures activeTask == old(activeTask)
      ensures boardData == BoardOps.ToggleSubtask(old(boardData), taskId, subtaskId)
      ensures old(Valid(boardData)) ==> Valid(boardData)
    {
      BoardOps.ToggleKeepsInvariant(boardData, taskId, subtaskId);
      var nb := ToggleSubtaskOnCopy(boardData, taskId, subtaskId);
      boardData := nb;
    }
  }

  /** The updater of `handleToggleSubtask`: on a copy of `prev`, walk `COLUMN_IDS` until a
      column holds the task; flip its subtask there if it has one, and stop at that column
      either way. */
  method ToggleSubtaskOnCopy(prev: Board, taskId: string, subtaskId: string) returns (nb: Board)
    ensures nb == BoardOps.ToggleSubtask(prev, taskId, subtaskId)
  {
    nb := prev;
    var k := 0;
    while k < |ColumnIds|
      invariant 0 <= k <= |ColumnIds|
      invariant nb == prev
      invariant BoardOps.FirstColumnWith(prev, ColumnIds, taskId)
        == BoardOps.FirstColumnWith(prev, ColumnIds[k..], taskId)
    {
      var colId := ColumnIds[k];
      assert ColumnIds[k..][0] == colId && ColumnIds[k..][1..] == ColumnIds[k + 1..];
      var taskIndex := FindIndex(nb.Get(colId).tasks, taskId);
      if taskIndex != -1 {
        assert BoardOps.FirstColumnWith(prev, ColumnIds, taskId) == Some(colId);
        var t := nb.Get(colId).tasks[taskIndex];
        if t.subtasks.Some? {
          var ss := t.subtasks.value;
          var subtaskIndex := FindSubtaskIndex(ss, subtaskId);
          if subtaskIndex != -1 {
            var flipped := ss[subtaskIndex := ss[subtaskIndex].(completed := !ss[subtaskIndex].completed)];
            assert t.(subtasks := Some(flipped)) == BoardOps.ToggleTask(t, subtaskId);
            var tasks := nb.Get(colId).tasks[taskIndex := t.(subtasks := Some(flipped))];
            nb := nb.With(colId, nb.Get(colId).(tasks := tasks));
          } else {
            WithOwnColumn(prev, colId);
          }
        } else {
          WithOwnColumn(prev, colId);
        }
        assert nb == BoardOps.ToggleSubtask(prev, taskId, subtaskId);
        break;
      }
      k := k + 1;
    }
  }
}
