/** The column order and the seed board used whenever no valid stored board exists.
    The seed's task and subtask ids come from a uuid generator and its due dates from the
    clock; both are parameters here (`SeedValues`). */
module Constants {
  import opened Types
  import opened TaskLists
  import opened Invariants

  /** `COLUMN_IDS`: the column order for iteration and display. */
  const ColumnIds: seq<ColumnId> := [NotStarted, InProgress, Blocked, Done]

  /** The position of a column in `ColumnIds`: every column id is listed, and only once. */
  function ColumnIndex(c: ColumnId): (k: nat)
    ensures k < |ColumnIds| && ColumnIds[k] == c
    ensures forall j :: 0 <= j < |ColumnIds| && ColumnIds[j] == c ==> j == k
  {
    match c
    case NotStarted => 0
    case InProgress => 1
    case Blocked => 2
    case Done => 3
  }

  /** The values the seed takes from the uuid generator and the clock. */
  datatype SeedValues = SeedValues(
    groceryId: string, groceryDue: string, milkId: string, eggsId: string,
    doctorId: string,
    kanbanId: string, kanbanDue: string,
    taxesId: string, taxesDue: string, formsId: string, accountantId: string, submitId: string,
    deployId: string)

  /** `INITIAL_TASKS`, one seed task per function. */
  function InitialTasks(v: SeedValues): seq<Task>
  {
    [GroceryTask(v), DoctorTask(v), KanbanTask(v), TaxesTask(v), DeployTask(v)]
  }

  function GroceryTask(v: SeedValues): Task
  {
    Task(v.groceryId, "Grocery Shopping", Some("Buy milk, eggs, bread, and cheese."),
         Some(v.groceryDue),
         Some([Subtask(v.milkId, "Buy Milk", false), Subtask(v.eggsId, "Buy Eggs", true)]),
         NotStarted)
  }

  function DoctorTask(v: SeedValues): Task
  {
    Task(v.doctorId, "Book Doctor Appointment", Some("Annual check-up."), None, None, NotStarted)
  }

  function KanbanTask(v: SeedValues): Task
  {
    Task(v.kanbanId, "Develop Kanban Feature", Some("Implement drag and drop functionality."),
         Some(v.kanbanDue), None, InProgress)
  }

  function TaxesTask(v: SeedValues): Task
  {
    Task(v.taxesId, "Taxes", Some("File annual tax returns."), Some(v.taxesDue),
         Some([Subtask(v.formsId, "Collect W2 forms", true),
               Subtask(v.accountantId, "Find accountant", false),
               Subtask(v.submitId, "Submit forms", false)]),
         Blocked)
  }

  function DeployTask(v: SeedValues): Task
  {
    Task(v.deployId, "Deploy Project v1.0", Some("Push to production server."), None, None, Done)
  }

  /** The uuid generator gave the five seed tasks five different ids. */
  predicate SeedIdsDistinct(v: SeedValues)
  {
    var ids := Ids(InitialTasks(v));
    forall i, j :: 0 <= i < j < |ids| ==> ids[i] != ids[j]
  }

  /** `tasks.filter((task) => task.columnId === c)` */
  function TasksInColumn(s: seq<Task>, c: ColumnId): (r: seq<Task>)
    ensures forall t :: t in r <==> t in s && t.columnId == c
    ensures |r| <= |s|
  {
    if s == [] then []
    else if s[0].columnId == c then [s[0]] + TasksInColumn(s[1..], c)
    else TasksInColumn(s[1..], c)
  }

  /** The filter distributes over concatenation, so it keeps the matching tasks in their
      order and with their multiplicity. */
  lemma {:induction false} TasksInColumnAppend(a: seq<Task>, b: seq<Task>, c: ColumnId)
    ensures TasksInColumn(a + b, c) == TasksInColumn(a, c) + TasksInColumn(b, c)
  {
    if a == [] {
      assert a + b == b;
    } else {
      assert (a + b)[0] == a[0];
      assert (a + b)[1..] == a[1..] + b;
      TasksInColumnAppend(a[1..], b, c);
    }
  }

  /** `INITIAL_COLUMNS` */
  function InitialColumns(v: SeedValues): Board
  {
    var ts := InitialTasks(v);
    Board(
      Column(NotStarted, "Not Started", TasksInColumn(ts, NotStarted)),
      Column(InProgress, "In Progress", TasksInColumn(ts, InProgress)),
      Column(Blocked, "Blocked", TasksInColumn(ts, Blocked)),
      Column(Done, "Done", TasksInColumn(ts, Done)))
  }

  /** The seed columns hold the seed tasks in `INITIAL_TASKS` order: the first two in
      Not Started, then one each in In Progress, Blocked and Done. */
  lemma {:induction false} InitialColumnsContents(v: SeedValues)
    ensures InitialColumns(v).notStarted.tasks == [GroceryTask(v), DoctorTask(v)]
    ensures InitialColumns(v).inProgress.tasks == [KanbanTask(v)]
    ensures InitialColumns(v).blocked.tasks == [TaxesTask(v)]
    ensures InitialColumns(v).done.tasks == [DeployTask(v)]
  {
    SplitFirstColumns(InitialTasks(v));
    SplitLastColumns(InitialTasks(v));
  }

  /** Every seed column's id is its key, and every seed task has a non-empty title. */
  lemma InitialColumnsKeyedAndTitled(v: SeedValues)
    ensures WellKeyed(InitialColumns(v))
    ensures forall t :: t in InitialTasks(v) ==> |t.title| > 0
  {
  }

  /** Five tasks whose `columnId`s run Not Started, Not Started, In Progress, Blocked, Done
      are split by `TasksInColumn` as two, one, one and one, in order: the first two
      columns here, the last two in `SplitLastColumns`. */
  lemma {:induction false} SplitFirstColumns(ts: seq<Task>)
    requires |ts| == 5
    requires ts[0].columnId == NotStarted && ts[1].columnId == NotStarted
    requires ts[2].columnId == InProgress && ts[3].columnId == Blocked && ts[4].columnId == Done
    ensures TasksInColumn(ts, NotStarted) == [ts[0], ts[1]]
    ensures TasksInColumn(ts, InProgress) == [ts[2]]
  {
    assert ts[1..][1..][1..][1..][1..] == [];
    assert TasksInColumn(ts[4..], NotStarted) == [];
    assert TasksInColumn(ts[3..], NotStarted) == [];
    assert TasksInColumn(ts[2..], NotStarted) == [];
    assert TasksInColumn(ts[1..], NotStarted) == [ts[1]];
    assert TasksInColumn(ts[4..], InProgress) == [];
    assert TasksInColumn(ts[3..], InProgress) == [];
    assert TasksInColumn(ts[2..], InProgress) == [ts[2]];
    assert TasksInColumn(ts[1..], InProgress) == [ts[2]];
  }

  lemma {:induction false} SplitLastColumns(ts: seq<Task>)
    requires |ts| == 5
    requires ts[0].columnId == NotStarted && ts[1].columnId == NotStarted
    requires ts[2].columnId == InProgress && ts[3].columnId == Blocked && ts[4].columnId == Done
    ensures TasksInColumn(ts, Blocked) == [ts[3]]
    ensures TasksInColumn(ts, Done) == [ts[4]]
  {
    assert ts[1..][1..][1..][1..][1..] == [];
    assert TasksInColumn(ts[4..], Blocked) == [];
    assert TasksInColumn(ts[3..], Blocked) == [ts[3]];
    assert TasksInColumn(ts[2..], Blocked) == [ts[3]];
    assert TasksInColumn(ts[1..], Blocked) == [ts[3]];
    assert TasksInColumn(ts[4..], Done) == [ts[4]];
    assert TasksInColumn(ts[3..], Done) == [ts[4]];
    assert TasksInColumn(ts[2..], Done) == [ts[4]];
    assert TasksInColumn(ts[1..], Done) == [ts[4]];
  }

  /** A board whose columns hold five tasks as two, one, one and one holds exactly their ids. */
  lemma FiveWaySplitIds(b: Board, ts: seq<Task>)
    requires |ts| == 5
    requires b.notStarted.tasks == [ts[0], ts[1]] && b.inProgress.tasks == [ts[2]]
    requires b.blocked.tasks == [ts[3]] && b.done.tasks == [ts[4]]
    ensures IdBag(b) == multiset(Ids(ts))
  {
    var ids := Ids(ts);
    assert Ids([ts[0], ts[1]]) == [ids[0], ids[1]];
    assert Ids([ts[2]]) == [ids[2]];
    assert Ids([ts[3]]) == [ids[3]];
    assert Ids([ts[4]]) == [ids[4]];
    assert ids == [ids[0], ids[1]] + [ids[2]] + [ids[3]] + [ids[4]];
  }

  /** The seed board holds exactly the ids of the seed tasks. */
  lemma {:induction false} InitialColumnsIds(v: SeedValues)
    ensures IdBag(InitialColumns(v)) == multiset(Ids(InitialTasks(v)))
  {
    InitialColumnsContents(v);
    FiveWaySplitIds(InitialColumns(v), InitialTasks(v));
  }

  /** Every seed task sits in the column its `columnId` names. */
  lemma {:induction false} InitialColumnsAgree(v: SeedValues)
    ensures ColumnIdsAgree(InitialColumns(v))
  {
    InitialColumnsContents(v);
    SplitAgrees(InitialColumns(v), InitialTasks(v));
  }

  /** A board whose columns hold five tasks as two, one, one and one agrees with them when
      their `columnId`s name those columns. */
  lemma SplitAgrees(b: Board, ts: seq<Task>)
    requires |ts| == 5
    requires b.notStarted.tasks == [ts[0], ts[1]] && b.inProgress.tasks == [ts[2]]
    requires b.blocked.tasks == [ts[3]] && b.done.tasks == [ts[4]]
    requires ts[0].columnId == NotStarted && ts[1].columnId == NotStarted
    requires ts[2].columnId == InProgress && ts[3].columnId == Blocked && ts[4].columnId == Done
    ensures ColumnIdsAgree(b)
  {
    forall c
      ensures ColumnAgrees(b.Get(c).tasks, c)
    {
    }
  }

  /** With distinct uuids the seed board satisfies the board invariant. */
  lemma {:induction false} InitialColumnsValid(v: SeedValues)
    requires SeedIdsDistinct(v)
    ensures Valid(InitialColumns(v))
  {
    InitialColumnsContents(v);
    InitialColumnsIds(v);
    InitialColumnsAgree(v);
    DistinctCountsOnce(Ids(InitialTasks(v)));
  }
}
