/** The invariant every board reachable from the seed keeps: each column sits under its own
    key, each task's `columnId` names the column that holds it, and each task id occurs once. */
module Invariants {
  import opened Types
  import opened TaskLists

  /** The ids of the tasks in one column, counted. */
  function ColumnBag(col: Column): multiset<string>
  {
    multiset(Ids(col.tasks))
  }

  /** How often each task id occurs on the whole board. */
  function IdBag(b: Board): multiset<string>
  {
    ColumnBag(b.notStarted) + ColumnBag(b.inProgress) + ColumnBag(b.blocked) + ColumnBag(b.done)
  }

  /** Replacing one column trades that column's ids for the new column's ids. */
  lemma IdBagWith(b: Board, c: ColumnId, col: Column)
    ensures IdBag(b.With(c, col)) + ColumnBag(b.Get(c)) == IdBag(b) + ColumnBag(col)
  {
  }

  /** Every column's ids are among the board's ids, and two different columns' counts add up. */
  lemma IdBagCountsColumns(b: Board, c: ColumnId, d: ColumnId, x: string)
    ensures ColumnBag(b.Get(c))[x] <= IdBag(b)[x]
    ensures c != d ==> ColumnBag(b.Get(c))[x] + ColumnBag(b.Get(d))[x] <= IdBag(b)[x]
  {
  }

  ghost predicate WellKeyed(b: Board)
  {
    forall c :: b.Get(c).id == c
  }

  /** Every task of column `c` says it belongs to `c`. */
  ghost predicate ColumnAgrees(col: seq<Task>, c: ColumnId)
  {
    forall t :: t in col ==> t.columnId == c
  }

  ghost predicate ColumnIdsAgree(b: Board)
  {
    forall c :: ColumnAgrees(b.Get(c).tasks, c)
  }

  ghost predicate UniqueIds(b: Board)
  {
    forall x :: IdBag(b)[x] <= 1
  }

  ghost predicate Valid(b: Board)
  {
    WellKeyed(b) && ColumnIdsAgree(b) && UniqueIds(b)
  }

  /** On a board with unique ids, a task id lives in at most one column. */
  lemma {:induction false} OneColumnPerTask(b: Board, id: string, c: ColumnId, d: ColumnId)
    requires UniqueIds(b)
    requires Has(b.Get(c).tasks, id) && Has(b.Get(d).tasks, id)
    ensures c == d
  {
    HasIffCounted(b.Get(c).tasks, id);
    HasIffCounted(b.Get(d).tasks, id);
    IdBagCountsColumns(b, c, d, id);
  }

  /** On a board with unique ids, a task id occupies at most one position of a column. */
  lemma {:induction false} OnePositionPerTask(b: Board, c: ColumnId, i: nat, j: nat)
    requires UniqueIds(b)
    requires i < |b.Get(c).tasks| && j < |b.Get(c).tasks|
    requires b.Get(c).tasks[i].id == b.Get(c).tasks[j].id
    ensures i == j
  {
    var xs := Ids(b.Get(c).tasks);
    if i < j {
      TwoPositionsCountTwice(xs, i, j);
    } else if j < i {
      TwoPositionsCountTwice(xs, j, i);
    }
    IdBagCountsColumns(b, c, c, xs[i]);
  }

  /** On a valid board the column holding a task is the one its `columnId` names, and no
      other column holds a task with that id. */
  lemma TaskLivesInItsColumn(b: Board, c: ColumnId, i: nat)
    requires Valid(b)
    requires i < |b.Get(c).tasks|
    ensures b.Get(c).tasks[i].columnId == c == b.Get(c).id
    ensures forall d :: Has(b.Get(d).tasks, b.Get(c).tasks[i].id) ==> d == c
  {
    assert b.Get(c).tasks[i] in b.Get(c).tasks;
    forall d | Has(b.Get(d).tasks, b.Get(c).tasks[i].id)
      ensures d == c
    {
      OneColumnPerTask(b, b.Get(c).tasks[i].id, c, d);
    }
  }

  /** Putting a column whose tasks all name `c`, and whose id is `c`, under key `c` keeps
      the first two parts of the invariant. */
  lemma ReplaceColumnKeepsAgreement(b: Board, c: ColumnId, col: Column)
    requires WellKeyed(b) && ColumnIdsAgree(b)
    requires col.id == c && ColumnAgrees(col.tasks, c)
    ensures WellKeyed(b.With(c, col)) && ColumnIdsAgree(b.With(c, col))
  {
    var r := b.With(c, col);
    forall d
      ensures r.Get(d).id == d && ColumnAgrees(r.Get(d).tasks, d)
    {
      if d != c {
        assert r.Get(d) == b.Get(d);
      }
    }
  }
}
