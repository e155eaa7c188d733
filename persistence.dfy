/** Restoring the board at start-up. The browser storage and the JSON parser are outside the
    model: what they hand over is a `Stored` value — nothing stored, text that does not parse,
    or a parsed document whose column entries may lack their `tasks`. */
module Persistence {
  import opened Types
  import opened TaskLists
  import opened Invariants
  import opened Constants

  /** A column entry as parsed: `tasks` is `None` when it is missing or falsy. */
  datatype RawColumn = RawColumn(id: ColumnId, title: string, tasks: Option<seq<Task>>)

  /** A parsed document: the column keys it holds, each with its entry. */
  type Document = map<ColumnId, RawColumn>

  /** What storage yields: nothing (or an empty string), unparseable text, or a document. */
  datatype Stored = Absent | Unparseable | Parsed(doc: Document)

  /** Column `c` is present in the document and has its task list. */
  predicate HasTasks(d: Document, c: ColumnId)
  {
    c in d && d[c].tasks.Some?
  }

  /** The start-up check: every id of `COLUMN_IDS`, in order, has an entry with tasks. */
  predicate DocumentValid(d: Document)
  {
    forall k :: 0 <= k < |ColumnIds| ==> HasTasks(d, ColumnIds[k])
  }

  /** Checking the ids of `COLUMN_IDS` is checking every column key. */
  lemma DocumentValidIffAllKeys(d: Document)
    ensures DocumentValid(d) <==> forall c :: HasTasks(d, c)
  {
    if DocumentValid(d) {
      forall c
        ensures HasTasks(d, c)
      {
        var k := ColumnIndex(c);
      }
    }
  }

  /** The parsed document taken as a board, as the source does with its type cast. */
  function ToBoard(d: Document): (r: Board)
    requires forall c :: HasTasks(d, c)
    ensures forall c :: HasTasks(d, c) ==> r.Get(c) == Column(d[c].id, d[c].title, d[c].tasks.value)
  {
    assert HasTasks(d, NotStarted) && HasTasks(d, InProgress) && HasTasks(d, Blocked) && HasTasks(d, Done);
    Board(
      Column(d[NotStarted].id, d[NotStarted].title, d[NotStarted].tasks.value),
      Column(d[InProgress].id, d[InProgress].title, d[InProgress].tasks.value),
      Column(d[Blocked].id, d[Blocked].title, d[Blocked].tasks.value),
      Column(d[Done].id, d[Done].title, d[Done].tasks.value))
  }

  /** The document a board is written as: one entry per column key. */
  function Serialize(b: Board): (d: Document)
    ensures DocumentValid(d)
    ensures forall c :: c in d && d[c] == RawColumn(b.Get(c).id, b.Get(c).title, Some(b.Get(c).tasks))
  {
    var d := map c: ColumnId | c in ColumnIds :: RawColumn(b.Get(c).id, b.Get(c).title, Some(b.Get(c).tasks));
    assert forall c :: c in d by {
      forall c
        ensures c in d
      {
        var k := ColumnIndex(c);
        assert ColumnIds[k] in ColumnIds;
      }
    }
    DocumentValidIffAllKeys(d);
    d
  }

  /** The lazy initial state of the board: the stored document when it passes the check,
      otherwise the seed board. */
  function Load(stored: Stored, seed: SeedValues): (r: Board)
    ensures stored.Parsed? && DocumentValid(stored.doc) ==> Serialize(r) == stored.doc
    ensures !(stored.Parsed? && DocumentValid(stored.doc)) ==> r == InitialColumns(seed)
  {
    match stored
    case Absent => InitialColumns(seed)
    case Unparseable => InitialColumns(seed)
    case Parsed(d) =>
      if DocumentValid(d) then
        DocumentValidIffAllKeys(d);
        var r := ToBoard(d);
        assert Serialize(r) == d;
        r
      else InitialColumns(seed)
  }

  /** A written board reads back as itself. */
  lemma {:induction false} LoadSaveRoundTrip(b: Board, seed: SeedValues)
    ensures Load(Parsed(Serialize(b)), seed) == b
  {
    var r := Load(Parsed(Serialize(b)), seed);
    forall c
      ensures r.Get(c) == b.Get(c)
    {
      assert Serialize(r)[c] == Serialize(b)[c];
    }
    BoardExtensionality(r, b);
  }

  /** Start-up yields a valid board when the seed's uuids are distinct and a stored board
      was valid when written. */
  lemma {:induction false} LoadKeepsValid(stored: Stored, seed: SeedValues)
    requires SeedIdsDistinct(seed)
    requires stored.Parsed? ==> exists b :: Valid(b) && stored.doc == Serialize(b)
    ensures Valid(Load(stored, seed))
  {
    if stored.Parsed? {
      var b :| Valid(b) && stored.doc == Serialize(b);
      LoadSaveRoundTrip(b, seed);
    } else {
      InitialColumnsValid(seed);
    }
  }

  /** The `COLUMN_IDS.forEach` check, flag by flag. */
  method ValidateDocument(d: Document) returns (isValid: bool)
    ensures isValid == DocumentValid(d)
  {
    isValid := true;
    for k := 0 to |ColumnIds|
      invariant isValid == forall j :: 0 <= j < k ==> HasTasks(d, ColumnIds[j])
    {
      var id := ColumnIds[k];
      if !(id in d) || d[id].tasks.None? {
        isValid := false;
      }
    }
  }

  /** The initializer as the source runs it. */
  method LoadBoard(stored: Stored, seed: SeedValues) returns (b: Board)
    ensures b == Load(stored, seed)
  {
    match stored {
      case Absent =>
        b := InitialColumns(seed);
      case Unparseable =>
        b := InitialColumns(seed);
      case Parsed(d) =>
        var isValid := ValidateDocument(d);
        DocumentValidIffAllKeys(d);
        b := if isValid then ToBoard(d) else InitialColumns(seed);
    }
  }
}
