/** Entity model of the board: column ids, subtasks, tasks, columns and the board record. */
module Types {

  datatype Option<+T> = None | Some(value: T)

  /** The four fixed columns of the board. */
  datatype ColumnId = NotStarted | InProgress | Blocked | Done

  /** The string a column id is written as, in stored documents and as a drop-target id. */
  function Name(c: ColumnId): string
  {
    match c
    case NotStarted => "notStarted"
    case InProgress => "inProgress"
    case Blocked => "blocked"
    case Done => "done"
  }

  /** Reads an arbitrary id as a column id; `None` when it names no column. */
  function ParseColumnId(s: string): (r: Option<ColumnId>)
    ensures r.Some? ==> Name(r.value) == s
    ensures r.None? ==> forall c: ColumnId :: Name(c) != s
  {
    if s == "notStarted" then Some(NotStarted)
    else if s == "inProgress" then Some(InProgress)
    else if s == "blocked" then Some(Blocked)
    else if s == "done" then Some(Done)
    else None
  }

  /** Distinct columns have distinct names, and parsing a name gives its column back. */
  lemma NameRoundTrip(c: ColumnId, d: ColumnId)
    ensures ParseColumnId(Name(c)) == Some(c)
    ensures Name(c) == Name(d) ==> c == d
  {
    var r := ParseColumnId(Name(c));
    assert r.Some?;
    assert Name(r.value) == Name(c);
    match c
    case NotStarted => assert Name(c)[0] == 'n';
    case InProgress => assert Name(c)[0] == 'i';
    case Blocked => assert Name(c)[0] == 'b';
    case Done => assert Name(c)[0] == 'd';
  }

  datatype Subtask = Subtask(id: string, text: string, completed: bool)

  /** Optional fields of the source record are `Option`s. */
  datatype Task = Task(
    id: string,
    title: string,
    description: Option<string>,
    dueDate: Option<string>,
    subtasks: Option<seq<Subtask>>,
    columnId: ColumnId)

  datatype Column = Column(id: ColumnId, title: string, tasks: seq<Task>)

  /** A record with one column per column id: every key is present by construction. */
  datatype Board = Board(notStarted: Column, inProgress: Column, blocked: Column, done: Column)
  {
    /** The column stored under key `c`. */
    function Get(c: ColumnId): Column
    {
      match c
      case NotStarted => notStarted
      case InProgress => inProgress
      case Blocked => blocked
      case Done => done
    }

    /** The board with the column under key `c` replaced and every other key kept. */
    function With(c: ColumnId, col: Column): (r: Board)
      ensures r.Get(c) == col
      ensures forall d :: d != c ==> r.Get(d) == Get(d)
    {
      match c
      case NotStarted => this.(notStarted := col)
      case InProgress => this.(inProgress := col)
      case Blocked => this.(blocked := col)
      case Done => this.(done := col)
    }
  }

  /** Putting a board's own column back under its key leaves the board as it was. */
  lemma WithOwnColumn(b: Board, c: ColumnId)
    ensures b.With(c, b.Get(c)) == b
  {
    BoardExtensionality(b.With(c, b.Get(c)), b);
  }

  /** Two boards that agree on every key are the same board. */
  lemma BoardExtensionality(a: Board, b: Board)
    requires forall c :: a.Get(c) == b.Get(c)
    ensures a == b
  {
    assert a.Get(NotStarted) == b.Get(NotStarted);
    assert a.Get(InProgress) == b.Get(InProgress);
    assert a.Get(Blocked) == b.Get(Blocked);
    assert a.Get(Done) == b.Get(Done);
  }
}
