/** The board store's operations as functions from the old board to the new one: locating a
    task's column, the drag-end interpreter, save (upsert), delete and subtask toggling. */
module BoardOps {
  import opened Types
  import opened TaskLists
  import opened Invariants
  import opened Constants

  // ---------------------------------------------------------------------------------------
  // Locating a task

  /** The first column among `cols`, in that order, holding a task with `id`. */
  function FirstColumnWith(b: Board, cols: seq<ColumnId>, id: string): (r: Option<ColumnId>)
    ensures r.None? <==> forall k :: 0 <= k < |cols| ==> !Has(b.Get(cols[k]).tasks, id)
    ensures r.Some? ==> exists k :: (0 <= k < |cols| && cols[k] == r.value
      && Has(b.Get(r.value).tasks, id)
      && forall j :: 0 <= j < k ==> !Has(b.Get(cols[j]).tasks, id))
  {
    if cols == [] then None
    else if Has(b.Get(cols[0]).tasks, id) then Some(cols[0])
    else
      var r := FirstColumnWith(b, cols[1..], id);
      assert forall k :: 1 <= k < |cols| ==> cols[k] == cols[1..][k - 1];
      r
  }

  /** Boards whose columns hold the same ids, position by position. */
  ghost predicate SameIds(b: Board, b': Board)
  {
    forall c :: Ids(b.Get(c).tasks) == Ids(b'.Get(c).tasks)
  }

  /** Which column is found first depends only on the ids the columns hold. */
  lemma {:induction false} FirstColumnWithOnlyReadsIds(b: Board, b': Board, cols: seq<ColumnId>, id: string)
    requires SameIds(b, b')
    ensures FirstColumnWith(b, cols, id) == FirstColumnWith(b', cols, id)
  {
    if cols != [] {
      HasOnlyReadsIds(b.Get(cols[0]).tasks, b'.Get(cols[0]).tasks, id);
      FirstColumnWithOnlyReadsIds(b, b', cols[1..], id);
    }
  }

  /** `findColumnContainingTask`: the first column holding the task. The source walks the
      board's values in key order; the model walks `COLUMN_IDS`, which is the key order of the
      seed board and of every board the handlers build. */
  function FindColumnContainingTask(b: Board, id: string): (r: Option<Column>)
    ensures r.None? <==> forall c :: !Has(b.Get(c).tasks, id)
    ensures r.Some? ==> Has(r.value.tasks, id) && exists c :: r.value == b.Get(c)
  {
    match FirstColumnWith(b, ColumnIds, id)
    case None =>
      assert forall c :: !Has(b.Get(c).tasks, id) by {
        forall c
          ensures !Has(b.Get(c).tasks, id)
        {
          var k := ColumnIndex(c);
        }
      }
      None
    case Some(c) => Some(b.Get(c))
  }

  /** On a valid board the column found is the one holding the task, under its own key. */
  lemma FindColumnOnValidBoard(b: Board, id: string, c: ColumnId)
    requires Valid(b)
    requires Has(b.Get(c).tasks, id)
    ensures FindColumnContainingTask(b, id) == Some(b.Get(c))
    ensures b.Get(c).id == c
  {
    var r := FindColumnContainingTask(b, id);
    var d :| r.value == b.Get(d);
    OneColumnPerTask(b, id, c, d);
  }

  /** The drop target: first as a column key, then as the id of a task in some column. */
  function ResolveOver(b: Board, overId: string): (r: Option<Column>)
    ensures ParseColumnId(overId).Some? ==> r == Some(b.Get(ParseColumnId(overId).value))
    ensures r.None? <==> ParseColumnId(overId).None? && forall c :: !Has(b.Get(c).tasks, overId)
    ensures r.Some? ==> exists c :: r.value == b.Get(c)
  {
    match ParseColumnId(overId)
    case Some(c) => Some(b.Get(c))
    case None => FindColumnContainingTask(b, overId)
  }

  /** `overId` resolves to column `c`. */
  predicate ResolvesTo(b: Board, overId: string, c: ColumnId)
  {
    ParseColumnId(overId) == Some(c) || (ParseColumnId(overId).None? && Has(b.Get(c).tasks, overId))
  }

  /** On a valid board both ends of a drag resolve to the columns under their own keys. */
  lemma DropResolves(b: Board, activeId: string, overId: string, src: ColumnId, dst: ColumnId)
    requires Valid(b)
    requires Has(b.Get(src).tasks, activeId) && ResolvesTo(b, overId, dst)
    ensures FindColumnContainingTask(b, activeId) == Some(b.Get(src))
    ensures ResolveOver(b, overId) == Some(b.Get(dst))
    ensures b.Get(src).id == src && b.Get(dst).id == dst
  {
    FindColumnOnValidBoard(b, activeId, src);
    if ParseColumnId(overId).None? {
      FindColumnOnValidBoard(b, overId, dst);
    }
  }

  // ---------------------------------------------------------------------------------------
  // Drag end

  /** The task dropped on a different column: filtered out of its column and inserted before
      the over-task, or appended when the drop target is the column itself. */
  function CrossMove(prev: Board, activeColumn: Column, overColumn: Column, activeId: string, overId: string): (r: Board)
    ensures !Has(activeColumn.tasks, activeId) ==> r == prev
    ensures forall d :: d != activeColumn.id && d != overColumn.id ==> r.Get(d) == prev.Get(d)
  {
    var taskToMove := Find(activeColumn.tasks, activeId);
    if taskToMove.None? then prev
    else
      var source := prev.Get(activeColumn.id);
      var nb := prev.With(activeColumn.id, source.(tasks := RemoveId(source.tasks, activeId)));
      var moved := taskToMove.value.(columnId := overColumn.id);
      nb.With(overColumn.id, nb.Get(overColumn.id).(tasks := Arrive(overColumn.tasks, overId, moved)))
  }

  /** The destination column's tasks once the moved task arrives: inserted before the task
      with id `overId`, or appended when there is none. */
  function Arrive(dest: seq<Task>, overId: string, moved: Task): (r: seq<Task>)
    ensures |r| == |dest| + 1
    ensures multiset(r) == multiset(dest) + multiset{moved}
    ensures var k := FindIndex(dest, overId);
      && (k != -1 ==> r[..k] == dest[..k] && r[k] == moved && r[k + 1..] == dest[k..])
      && (k == -1 ==> r[..|dest|] == dest && r[|dest|] == moved)
  {
    var overTaskIndex := FindIndex(dest, overId);
    if overTaskIndex != -1 then InsertAt(dest, overTaskIndex, moved)
    else dest + [moved]
  }

  /** A cross move whose destination is stored under its own key, in closed form. */
  lemma CrossMoveUnfolds(b: Board, S: Column, D: Column, activeId: string, overId: string)
    requires Has(S.tasks, activeId) && S.id != D.id && b.Get(D.id) == D
    ensures var moved := S.tasks[FindIndex(S.tasks, activeId)].(columnId := D.id);
      CrossMove(b, S, D, activeId, overId)
        == b.With(S.id, b.Get(S.id).(tasks := RemoveId(b.Get(S.id).tasks, activeId)))
            .With(D.id, D.(tasks := Arrive(D.tasks, overId, moved)))
  {
    assert Find(S.tasks, activeId) == Some(S.tasks[FindIndex(S.tasks, activeId)]);
  }

  /** The index the task is moved to inside its column: the over-task's index, the last index
      when the drop target is the column itself, and -1 (no move) otherwise. */
  function DropIndex(column: Column, overId: string): (k: int)
    ensures -1 <= k < |column.tasks|
    ensures Has(column.tasks, overId) ==> k == FindIndex(column.tasks, overId)
    ensures !Has(column.tasks, overId) && overId == Name(column.id) ==> k == |column.tasks| - 1
    ensures !Has(column.tasks, overId) && overId != Name(column.id) ==> k == -1
  {
    var newIndex := FindIndex(column.tasks, overId);
    if newIndex == -1 && overId == Name(column.id) then |column.tasks| - 1
    else newIndex
  }

  /** The task dropped in its own column: an array move to `DropIndex`; an unknown target
      changes nothing. */
  function Reorder(prev: Board, columnId: ColumnId, activeId: string, overId: string): (r: Board)
    ensures forall d :: d != columnId ==> r.Get(d) == prev.Get(d)
    ensures r.Get(columnId).id == prev.Get(columnId).id
    ensures r.Get(columnId).title == prev.Get(columnId).title
    ensures !Has(prev.Get(columnId).tasks, activeId) ==> r == prev
  {
    var column := prev.Get(columnId);
    var oldIndex := FindIndex(column.tasks, activeId);
    var newIndex := DropIndex(column, overId);
    if oldIndex == -1 || newIndex == -1 then prev
    else prev.With(columnId, column.(tasks := ArrayMove(column.tasks, oldIndex, newIndex)))
  }

  /** `handleDragEnd`'s effect on the board (`overId` is `None` when there is no drop target). */
  function DragEnd(b: Board, activeId: string, overId: Option<string>): (r: Board)
    ensures overId.None? ==> r == b
    ensures (forall c :: !Has(b.Get(c).tasks, activeId)) ==> r == b
    ensures overId.Some? && ResolveOver(b, overId.value).None? ==> r == b
  {
    match overId
    case None => b
    case Some(over) =>
      var activeColumn := FindColumnContainingTask(b, activeId);
      var overColumn := ResolveOver(b, over);
      if activeColumn.None? || overColumn.None? then b
      else if activeColumn.value.id != overColumn.value.id then
        CrossMove(b, activeColumn.value, overColumn.value, activeId, over)
      else if activeId != over then Reorder(b, activeColumn.value.id, activeId, over)
      else b
  }

  /** Dropping a task on itself changes nothing (unless its id is also a column key, in which
      case the drop target is that column). */
  lemma DropOnItself(b: Board, id: string)
    requires ParseColumnId(id).None?
    ensures DragEnd(b, id, Some(id)) == b
  {
    var a := FindColumnContainingTask(b, id);
    if a.Some? {
      assert ResolveOver(b, id) == a;
    }
  }

  /** The task dropped on another column, as seen on a valid board: it leaves its column,
      arrives with the destination's `columnId` immediately before the over-task (or at the
      end when the target is the column), and the other two columns are untouched. */
  lemma {:induction false} CrossColumnDrop(b: Board, activeId: string, overId: string, src: ColumnId, dst: ColumnId)
    requires Valid(b)
    requires Has(b.Get(src).tasks, activeId) && ResolvesTo(b, overId, dst) && src != dst
    ensures var r := DragEnd(b, activeId, Some(overId));
      var t := b.Get(src).tasks[FindIndex(b.Get(src).tasks, activeId)];
      && t.id == activeId
      && r.Get(src) == b.Get(src).(tasks := RemoveId(b.Get(src).tasks, activeId))
      && !Has(r.Get(src).tasks, activeId)
      && r.Get(dst) == b.Get(dst).(tasks := Arrive(b.Get(dst).tasks, overId, t.(columnId := dst)))
      && forall c :: c != src && c != dst ==> r.Get(c) == b.Get(c)
  {
    DropResolves(b, activeId, overId, src, dst);
    CrossDropUnfolds(b, activeId, overId, b.Get(src), b.Get(dst));
  }

  /** A drag whose two ends resolve to different columns stored under their own keys is
      the cross move between them. */
  lemma CrossDropUnfolds(b: Board, activeId: string, overId: string, S: Column, D: Column)
    requires FindColumnContainingTask(b, activeId) == Some(S) && ResolveOver(b, overId) == Some(D)
    requires Has(S.tasks, activeId) && S.id != D.id && b.Get(S.id) == S && b.Get(D.id) == D
    ensures var moved := S.tasks[FindIndex(S.tasks, activeId)].(columnId := D.id);
      DragEnd(b, activeId, Some(overId))
        == b.With(S.id, S.(tasks := RemoveId(S.tasks, activeId))).With(D.id, D.(tasks := Arrive(D.tasks, overId, moved)))
  {
    CrossMoveUnfolds(b, S, D, activeId, overId);
  }

  /** The task dropped in its own column, as seen on a valid board: the column becomes the
      array move of the task to the over-task's index, or to the last index when the target
      is the column; nothing else changes. */
  lemma {:induction false} SameColumnDrop(b: Board, activeId: string, overId: string, c: ColumnId)
    requires Valid(b)
    requires Has(b.Get(c).tasks, activeId) && ResolvesTo(b, overId, c) && activeId != overId
    ensures var ts := b.Get(c).tasks;
      var from := FindIndex(ts, activeId);
      var to := if Has(ts, overId) then FindIndex(ts, overId) else |ts| - 1;
      && 0 <= from < |ts| && 0 <= to < |ts|
      && DragEnd(b, activeId, Some(overId)) == b.With(c, b.Get(c).(tasks := ArrayMove(ts, from, to)))
  {
    var ts := b.Get(c).tasks;
    DropResolves(b, activeId, overId, c, c);
    assert DragEnd(b, activeId, Some(overId)) == Reorder(b, c, activeId, overId);
    var to := if Has(ts, overId) then FindIndex(ts, overId) else |ts| - 1;
    if !Has(ts, overId) {
      assert overId == Name(b.Get(c).id);
    }
    assert DropIndex(b.Get(c), overId) == to;
  }

  /** Moving one copy of `x` from column `src` to column `dst` keeps the board's ids. */
  lemma TransferKeepsIds(b: Board, src: ColumnId, dst: ColumnId, s': Column, d': Column, x: string)
    requires src != dst
    requires ColumnBag(b.Get(src)) == ColumnBag(s') + multiset{x}
    requires ColumnBag(d') == ColumnBag(b.Get(dst)) + multiset{x}
    ensures IdBag(b.With(src, s').With(dst, d')) == IdBag(b)
  {
    var nb := b.With(src, s');
    IdBagWith(b, src, s');
    AddOneCopy(IdBag(b), IdBag(nb), ColumnBag(s'), ColumnBag(b.Get(src)), x);
    assert nb.Get(dst) == b.Get(dst);
    IdBagWith(nb, dst, d');
    AddOneCopy(IdBag(nb.With(dst, d')), IdBag(nb), ColumnBag(b.Get(dst)), ColumnBag(d'), x);
  }

  /** Taking the task out of its column on a valid board removes exactly one copy of its id,
      and every task left behind still names that column. */
  lemma {:induction false} RemoveFromColumn(b: Board, src: ColumnId, id: string)
    requires Valid(b) && Has(b.Get(src).tasks, id)
    ensures var s' := b.Get(src).(tasks := RemoveId(b.Get(src).tasks, id));
      && ColumnBag(b.Get(src)) == ColumnBag(s') + multiset{id}
      && s'.id == src && ColumnAgrees(s'.tasks, src)
  {
    RemoveIdCounts(b.Get(src).tasks, id);
    HasIffCounted(b.Get(src).tasks, id);
    IdBagCountsColumns(b, src, src, id);
  }

  /** Adding a task that names column `dst` to that column, at the end or before position
      `k`, adds one copy of its id and keeps the column agreeing. */
  lemma {:induction false} AddToColumn(d: Column, dst: ColumnId, k: int, moved: Task)
    requires ColumnAgrees(d.tasks, dst) && moved.columnId == dst
    requires -1 <= k < |d.tasks|
    ensures var nt := if k != -1 then InsertAt(d.tasks, k, moved) else d.tasks + [moved];
      && ColumnBag(d.(tasks := nt)) == ColumnBag(d) + multiset{moved.id}
      && ColumnAgrees(nt, dst)
  {
    var nt := if k != -1 then InsertAt(d.tasks, k, moved) else d.tasks + [moved];
    if k == -1 {
      IdsAppend(d.tasks, [moved]);
    } else {
      IdsInsertAt(d.tasks, k, moved);
    }
    forall u | u in nt
      ensures u.columnId == dst
    {
      if u != moved {
        assert u in multiset(nt);
        assert u in d.tasks;
      }
    }
  }

  /** The cross-column branch on a valid board keeps the board valid and its ids. */
  lemma {:induction false} CrossMoveKeepsInvariant(b: Board, activeId: string, overId: string, src: ColumnId, dst: ColumnId)
    requires Valid(b)
    requires Has(b.Get(src).tasks, activeId) && src != dst
    ensures var r := CrossMove(b, b.Get(src), b.Get(dst), activeId, overId);
      Valid(r) && IdBag(r) == IdBag(b)
  {
    var S, D := b.Get(src), b.Get(dst);
    var t := Find(S.tasks, activeId).value;
    var moved := t.(columnId := D.id);
    var k := FindIndex(D.tasks, overId);
    var s' := S.(tasks := RemoveId(S.tasks, activeId));
    var nt := if k != -1 then InsertAt(D.tasks, k, moved) else D.tasks + [moved];
    var d' := D.(tasks := nt);
    var nb := b.With(src, s');
    assert CrossMove(b, S, D, activeId, overId) == nb.With(dst, d');
    RemoveFromColumn(b, src, activeId);
    AddToColumn(D, dst, k, moved);
    TransferKeepsIds(b, src, dst, s', d', activeId);
    ReplaceColumnKeepsAgreement(b, src, s');
    ReplaceColumnKeepsAgreement(nb, dst, d');
  }

  /** An array move inside one column of a valid board keeps the board valid and its ids. */
  lemma {:induction false} MoveWithinColumnKeepsInvariant(b: Board, c: ColumnId, from: nat, to: nat)
    requires Valid(b)
    requires from < |b.Get(c).tasks| && to < |b.Get(c).tasks|
    ensures var r := b.With(c, b.Get(c).(tasks := ArrayMove(b.Get(c).tasks, from, to)));
      Valid(r) && IdBag(r) == IdBag(b)
  {
    var ts := b.Get(c).tasks;
    var col := b.Get(c).(tasks := ArrayMove(ts, from, to));
    IdsArrayMove(ts, from, to);
    IdBagWith(b, c, col);
    forall u | u in col.tasks
      ensures u.columnId == c
    {
      assert u in multiset(col.tasks);
    }
    ReplaceColumnKeepsAgreement(b, c, col);
  }

  /** The same-column branch on a valid board keeps the board valid and its ids. */
  lemma {:induction false} ReorderKeepsInvariant(b: Board, c: ColumnId, activeId: string, overId: string)
    requires Valid(b)
    ensures Valid(Reorder(b, c, activeId, overId)) && IdBag(Reorder(b, c, activeId, overId)) == IdBag(b)
  {
    var oldIndex := FindIndex(b.Get(c).tasks, activeId);
    var newIndex := DropIndex(b.Get(c), overId);
    if oldIndex != -1 && newIndex != -1 {
      MoveWithinColumnKeepsInvariant(b, c, oldIndex, newIndex);
    }
  }

  /** Every drag end keeps a valid board valid and keeps the multiset of task ids: no task is
      lost or duplicated. */
  lemma {:induction false} DragEndKeepsInvariant(b: Board, activeId: string, overId: Option<string>)
    requires Valid(b)
    ensures Valid(DragEnd(b, activeId, overId))
    ensures IdBag(DragEnd(b, activeId, overId)) == IdBag(b)
  {
    if overId.Some? {
      var o := overId.value;
      var ac := FindColumnContainingTask(b, activeId);
      var oc := ResolveOver(b, o);
      if ac.Some? && oc.Some? {
        var src :| ac.value == b.Get(src);
        var dst :| oc.value == b.Get(dst);
        DropKeepsInvariant(b, activeId, o, src, dst);
      }
    }
  }

  /** A drop whose two ends resolve to columns `src` and `dst` of a valid board keeps it
      valid and keeps its ids. */
  lemma {:induction false} DropKeepsInvariant(b: Board, activeId: string, o: string, src: ColumnId, dst: ColumnId)
    requires Valid(b)
    requires FindColumnContainingTask(b, activeId) == Some(b.Get(src))
    requires ResolveOver(b, o) == Some(b.Get(dst))
    ensures Valid(DragEnd(b, activeId, Some(o))) && IdBag(DragEnd(b, activeId, Some(o))) == IdBag(b)
  {
    assert b.Get(src).id == src && b.Get(dst).id == dst;
    if src != dst {
      assert DragEnd(b, activeId, Some(o)) == CrossMove(b, b.Get(src), b.Get(dst), activeId, o);
      CrossMoveKeepsInvariant(b, activeId, o, src, dst);
    } else if activeId != o {
      assert DragEnd(b, activeId, Some(o)) == Reorder(b, src, activeId, o);
      ReorderKeepsInvariant(b, src, activeId, o);
    }
  }

  // ---------------------------------------------------------------------------------------
  // Delete and save

  /** `handleConfirmDelete`: the task id is filtered out of every column. */
  function DeleteTask(b: Board, id: string): (r: Board)
    ensures forall c :: r.Get(c) == b.Get(c).(tasks := RemoveId(b.Get(c).tasks, id))
    ensures (forall c :: !Has(b.Get(c).tasks, id)) ==> r == b
  {
    var r := Board(
      b.notStarted.(tasks := RemoveId(b.notStarted.tasks, id)),
      b.inProgress.(tasks := RemoveId(b.inProgress.tasks, id)),
      b.blocked.(tasks := RemoveId(b.blocked.tasks, id)),
      b.done.(tasks := RemoveId(b.done.tasks, id)));
    assert forall c :: r.Get(c) == b.Get(c).(tasks := RemoveId(b.Get(c).tasks, id)) by {
      forall c
        ensures r.Get(c) == b.Get(c).(tasks := RemoveId(b.Get(c).tasks, id))
      {
        assert c == NotStarted || c == InProgress || c == Blocked || c == Done;
      }
    }
    assert (forall c :: !Has(b.Get(c).tasks, id)) ==> r == b by {
      if forall c :: !Has(b.Get(c).tasks, id) {
        BoardExtensionality(r, b);
      }
    }
    r
  }

  /** After a delete no column holds the id, and each column keeps exactly its other tasks. */
  lemma DeleteRemovesOnlyId(b: Board, id: string)
    ensures forall c :: !Has(DeleteTask(b, id).Get(c).tasks, id)
    ensures forall c, t :: t in DeleteTask(b, id).Get(c).tasks <==> t in b.Get(c).tasks && t.id != id
  {
    var r := DeleteTask(b, id);
    forall c
      ensures !Has(r.Get(c).tasks, id)
    {
      var s := r.Get(c).tasks;
      forall i | 0 <= i < |s|
        ensures s[i].id != id
      {
        assert s[i] in s;
      }
    }
  }

  /** Deleting twice is deleting once. */
  lemma DeleteIdempotent(b: Board, id: string)
    ensures DeleteTask(DeleteTask(b, id), id) == DeleteTask(b, id)
  {
    DeleteRemovesOnlyId(b, id);
  }

  /** Deleting drops every copy of the id, keeps every other id's count, and keeps a valid
      board valid. */
  lemma {:induction false} DeleteKeepsInvariant(b: Board, id: string)
    ensures IdBag(DeleteTask(b, id))[id] == 0
    ensures forall x :: x != id ==> IdBag(DeleteTask(b, id))[x] == IdBag(b)[x]
    ensures Valid(b) ==> Valid(DeleteTask(b, id))
  {
    var r := DeleteTask(b, id);
    DeleteColumnCounts(b, id);
    if Valid(b) {
      forall c
        ensures ColumnAgrees(r.Get(c).tasks, c)
      {
        assert ColumnAgrees(b.Get(c).tasks, c);
      }
    }
  }

  /** Column by column, a delete zeroes the id's count and keeps every other count. */
  lemma {:induction false} DeleteColumnCounts(b: Board, id: string)
    ensures forall x :: IdBag(DeleteTask(b, id))[x] == if x == id then 0 else IdBag(b)[x]
  {
    var r := DeleteTask(b, id);
    RemoveIdCounts(b.notStarted.tasks, id);
    RemoveIdCounts(b.inProgress.tasks, id);
    RemoveIdCounts(b.blocked.tasks, id);
    RemoveIdCounts(b.done.tasks, id);
    assert r.notStarted.tasks == RemoveId(b.notStarted.tasks, id) by { assert r.Get(NotStarted) == r.notStarted; }
    assert r.inProgress.tasks == RemoveId(b.inProgress.tasks, id) by { assert r.Get(InProgress) == r.inProgress; }
    assert r.blocked.tasks == RemoveId(b.blocked.tasks, id) by { assert r.Get(Blocked) == r.blocked; }
    assert r.done.tasks == RemoveId(b.done.tasks, id) by { assert r.Get(Done) == r.done; }
  }

  /** `handleSaveTask`: the task's id is filtered out of every column, then the task goes to
      column `task.columnId`, replacing a copy found there or else appended. */
  function SaveTask(b: Board, task: Task): (r: Board)
    ensures r.Get(task.columnId).tasks == RemoveId(b.Get(task.columnId).tasks, task.id) + [task]
    ensures forall c :: c != task.columnId ==> r.Get(c).tasks == RemoveId(b.Get(c).tasks, task.id)
    ensures forall c :: r.Get(c).id == b.Get(c).id && r.Get(c).title == b.Get(c).title
  {
    var cleared := DeleteTask(b, task.id);
    var target := cleared.Get(task.columnId);
    if Has(target.tasks, task.id) then
      cleared.With(task.columnId, target.(tasks := ReplaceById(target.tasks, task)))
    else
      cleared.With(task.columnId, target.(tasks := target.tasks + [task]))
  }

  /** The save as the source leaves it: the filter has removed every copy, so the task is
      always appended to the cleared target column. */
  lemma SaveTaskAppends(b: Board, task: Task)
    ensures var cleared := DeleteTask(b, task.id);
      SaveTask(b, task) == cleared.With(task.columnId,
        cleared.Get(task.columnId).(tasks := cleared.Get(task.columnId).tasks + [task]))
  {
  }

  /** Appending a task to one column adds its id to the board's ids once. */
  lemma AppendCounts(b: Board, c: ColumnId, task: Task)
    ensures var col := b.Get(c).(tasks := b.Get(c).tasks + [task]);
      IdBag(b.With(c, col)) == IdBag(b) + multiset{task.id}
  {
    var col := b.Get(c).(tasks := b.Get(c).tasks + [task]);
    IdBagWith(b, c, col);
    IdsAppend(b.Get(c).tasks, [task]);
    assert ColumnBag(col) == ColumnBag(b.Get(c)) + multiset{task.id};
    AddOneCopy(IdBag(b.With(c, col)), IdBag(b), ColumnBag(b.Get(c)), ColumnBag(col), task.id);
  }

  /** Bag arithmetic: trading `p` for `p` plus one `x` adds one `x`. */
  lemma AddOneCopy(a: multiset<string>, b: multiset<string>, p: multiset<string>, q: multiset<string>, x: string)
    requires a + p == b + q && q == p + multiset{x}
    ensures a == b + multiset{x}
  {
    assert forall y :: a[y] + p[y] == b[y] + q[y] by {
      forall y
        ensures a[y] + p[y] == b[y] + q[y]
      {
        assert (a + p)[y] == (b + q)[y];
      }
    }
  }

  /** After a save the task's id occurs exactly once and every other id keeps its count. */
  lemma {:induction false} SaveTaskCounts(b: Board, task: Task)
    ensures IdBag(SaveTask(b, task))[task.id] == 1
    ensures forall x :: x != task.id ==> IdBag(SaveTask(b, task))[x] == IdBag(b)[x]
  {
    var cleared := DeleteTask(b, task.id);
    SaveTaskAppends(b, task);
    DeleteKeepsInvariant(b, task.id);
    AppendCounts(cleared, task.columnId, task);
  }

  /** After a save the task is the last task of column `task.columnId` and no other column
      holds its id. */
  lemma {:induction false} SaveTaskPlacesLast(b: Board, task: Task)
    ensures var r := SaveTask(b, task);
      && (forall c :: Has(r.Get(c).tasks, task.id) <==> c == task.columnId)
      && r.Get(task.columnId).tasks[|r.Get(task.columnId).tasks| - 1] == task
  {
    var r := SaveTask(b, task);
    var cleared := DeleteTask(b, task.id);
    var c0 := task.columnId;
    var target := cleared.Get(c0);
    SaveTaskAppends(b, task);
    DeleteRemovesOnlyId(b, task.id);
    forall c
      ensures Has(r.Get(c).tasks, task.id) <==> c == c0
    {
      if c == c0 {
        assert r.Get(c).tasks[|target.tasks|].id == task.id;
      } else {
        assert r.Get(c) == cleared.Get(c);
      }
    }
  }

  /** A save keeps a valid board valid. */
  lemma {:induction false} SaveTaskKeepsInvariant(b: Board, task: Task)
    requires Valid(b)
    ensures Valid(SaveTask(b, task))
  {
    var cleared := DeleteTask(b, task.id);
    var c0 := task.columnId;
    var target := cleared.Get(c0);
    var col := target.(tasks := target.tasks + [task]);
    SaveTaskAppends(b, task);
    SaveTaskCounts(b, task);
    DeleteKeepsInvariant(b, task.id);
    assert ColumnAgrees(target.tasks, c0);
    ReplaceColumnKeepsAgreement(cleared, c0, col);
  }

  // ---------------------------------------------------------------------------------------
  // Subtask toggling

  /** The first subtask with `subtaskId` flips its `completed` flag; a task without subtasks,
      or without that subtask, is unchanged. */
  function ToggleTask(t: Task, subtaskId: string): (r: Task)
    ensures r.(subtasks := t.subtasks) == t
    ensures t.subtasks.None? ==> r == t
    ensures t.subtasks.Some? ==> r.subtasks.Some? && |r.subtasks.value| == |t.subtasks.value|
    ensures t.subtasks.Some? ==> forall k :: 0 <= k < |t.subtasks.value| ==>
      var was, now := t.subtasks.value[k], r.subtasks.value[k];
      && now.id == was.id && now.text == was.text
      && (now.completed != was.completed <==>
            was.id == subtaskId && forall j :: 0 <= j < k ==> t.subtasks.value[j].id != subtaskId)
  {
    match t.subtasks
    case None => t
    case Some(ss) =>
      var k := FindSubtaskIndex(ss, subtaskId);
      if k == -1 then t
      else t.(subtasks := Some(ss[k := ss[k].(completed := !ss[k].completed)]))
  }

  /** Toggling the same subtask twice restores the task. */
  lemma ToggleTaskInvolutive(t: Task, subtaskId: string)
    ensures ToggleTask(ToggleTask(t, subtaskId), subtaskId) == t
  {
    var once := ToggleTask(t, subtaskId);
    var twice := ToggleTask(once, subtaskId);
    if t.subtasks.Some? {
      var ss, ss1, ss2 := t.subtasks.value, once.subtasks.value, twice.subtasks.value;
      assert forall k :: 0 <= k < |ss| ==> ss2[k] == ss[k];
      assert ss2 == ss;
    }
  }

  /** `handleToggleSubtask`: the first column in `COLUMN_IDS` order holding the task is the
      only one looked at; there the first task with the id has its subtask toggled. */
  function ToggleSubtask(b: Board, taskId: string, subtaskId: string): (r: Board)
    ensures (forall c :: !Has(b.Get(c).tasks, taskId)) ==> r == b
    ensures SameIds(b, r)
  {
    match FirstColumnWith(b, ColumnIds, taskId)
    case None => b
    case Some(c) =>
      var ts := b.Get(c).tasks;
      var i := FindIndex(ts, taskId);
      var ts' := ts[i := ToggleTask(ts[i], subtaskId)];
      assert Ids(ts') == Ids(ts);
      b.With(c, b.Get(c).(tasks := ts'))
  }

  /** On a valid board the toggle lands on the one task with that id, wherever it lives. */
  lemma ToggleSubtaskEffect(b: Board, taskId: string, subtaskId: string, c: ColumnId, i: nat)
    requires Valid(b)
    requires i < |b.Get(c).tasks| && b.Get(c).tasks[i].id == taskId
    ensures var ts := b.Get(c).tasks;
      ToggleSubtask(b, taskId, subtaskId) == b.With(c, b.Get(c).(tasks := ts[i := ToggleTask(ts[i], subtaskId)]))
  {
    var ts := b.Get(c).tasks;
    assert Has(ts, taskId);
    var f := FirstColumnWith(b, ColumnIds, taskId);
    assert f.Some? by {
      var kc := ColumnIndex(c);
    }
    var k :| 0 <= k < |ColumnIds| && ColumnIds[k] == f.value && Has(b.Get(f.value).tasks, taskId);
    OneColumnPerTask(b, taskId, c, f.value);
    OnePositionPerTask(b, c, i, FindIndex(ts, taskId));
  }

  /** Toggling twice restores the board. */
  lemma ToggleSubtaskInvolutive(b: Board, taskId: string, subtaskId: string)
    ensures ToggleSubtask(ToggleSubtask(b, taskId, subtaskId), taskId, subtaskId) == b
  {
    var once := ToggleSubtask(b, taskId, subtaskId);
    FirstColumnWithOnlyReadsIds(b, once, ColumnIds, taskId);
    match FirstColumnWith(b, ColumnIds, taskId)
    case None =>
    case Some(c) =>
      var ts := b.Get(c).tasks;
      var i := FindIndex(ts, taskId);
      var ts1 := ts[i := ToggleTask(ts[i], subtaskId)];
      assert once == b.With(c, b.Get(c).(tasks := ts1));
      assert once.Get(c).tasks == ts1;
      assert Ids(ts1) == Ids(ts);
      FindIndexOnlyReadsIds(ts, ts1, taskId);
      ToggleTaskInvolutive(ts[i], subtaskId);
      assert ts1[i] == ToggleTask(ts[i], subtaskId);
      assert ToggleTask(ts1[i], subtaskId) == ts[i];
      RestoreAt(ts, i, ToggleTask(ts[i], subtaskId));
      var twice := ToggleSubtask(once, taskId, subtaskId);
      assert twice == once.With(c, once.Get(c).(tasks := ts));
      BoardExtensionality(twice, b);
  }

  /** Writing an element back where it was undoes an update. */
  lemma RestoreAt<T>(s: seq<T>, i: nat, x: T)
    requires i < |s|
    ensures s[i := x][i := s[i]] == s
  {
  }

  /** Boards holding the same ids column by column count the same ids. */
  lemma SameIdsSameBag(b: Board, b': Board)
    requires SameIds(b, b')
    ensures IdBag(b) == IdBag(b')
  {
    assert ColumnBag(b.notStarted) == ColumnBag(b'.notStarted) by { assert b.Get(NotStarted) == b.notStarted; }
    assert ColumnBag(b.inProgress) == ColumnBag(b'.inProgress) by { assert b.Get(InProgress) == b.inProgress; }
    assert ColumnBag(b.blocked) == ColumnBag(b'.blocked) by { assert b.Get(Blocked) == b.blocked; }
    assert ColumnBag(b.done) == ColumnBag(b'.done) by { assert b.Get(Done) == b.done; }
  }

  /** Replacing one task of a column by a task naming the same column keeps the column
      agreeing. */
  lemma {:induction false} UpdateKeepsAgreement(ts: seq<Task>, i: nat, t: Task, c: ColumnId)
    requires i < |ts| && ColumnAgrees(ts, c) && t.columnId == c
    ensures ColumnAgrees(ts[i := t], c)
  {
    var ts' := ts[i := t];
    forall u | u in ts'
      ensures u.columnId == c
    {
      var j :| 0 <= j < |ts'| && ts'[j] == u;
      if j != i {
        assert ts[j] in ts;
      }
    }
  }

  /** A toggle keeps the board's ids and a valid board valid. */
  lemma {:induction false} ToggleKeepsInvariant(b: Board, taskId: string, subtaskId: string)
    ensures IdBag(ToggleSubtask(b, taskId, subtaskId)) == IdBag(b)
    ensures Valid(b) ==> Valid(ToggleSubtask(b, taskId, subtaskId))
  {
    var r := ToggleSubtask(b, taskId, subtaskId);
    SameIdsSameBag(b, r);
    match FirstColumnWith(b, ColumnIds, taskId)
    case None =>
    case Some(c) =>
      var ts := b.Get(c).tasks;
      var i := FindIndex(ts, taskId);
      if Valid(b) {
        assert ts[i] in ts;
        UpdateKeepsAgreement(ts, i, ToggleTask(ts[i], subtaskId), c);
        ReplaceColumnKeepsAgreement(b, c, b.Get(c).(tasks := ts[i := ToggleTask(ts[i], subtaskId)]));
      }
  }
}
