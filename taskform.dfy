/** The task form: its field state, the open/reset effect, the subtask list editors and the
    submit rule that builds the task handed to the board's save. Every handler is a function
    from the old form state to the new one; ids from the uuid generator and the date
    conversion are parameters. */
module TaskForm {
  import opened Types

  // ---------------------------------------------------------------------------------------
  // String.prototype.trim

  /** The characters `trim` strips: ECMAScript's WhiteSpace and LineTerminator sets. */
  const SpaceChars: set<char> := {
    '\t', '\n', '\U{000B}', '\U{000C}', '\r', ' ', '\U{00A0}', '\U{1680}',
    '\U{2000}', '\U{2001}', '\U{2002}', '\U{2003}', '\U{2004}', '\U{2005}', '\U{2006}',
    '\U{2007}', '\U{2008}', '\U{2009}', '\U{200A}',
    '\U{2028}', '\U{2029}', '\U{202F}', '\U{205F}', '\U{3000}', '\U{FEFF}' }

  predicate IsSpace(ch: char)
  {
    ch in SpaceChars
  }

  /** Every character of `s` is white space (the empty string included). */
  predicate Blank(s: string)
  {
    forall k :: 0 <= k < |s| ==> IsSpace(s[k])
  }

  /** How many white-space characters `s` starts with. */
  function LeadingSpaces(s: string): (n: nat)
    ensures n <= |s|
    ensures forall k :: 0 <= k < n ==> IsSpace(s[k])
    ensures n < |s| ==> !IsSpace(s[n])
  {
    if s != [] && IsSpace(s[0]) then
      var n := 1 + LeadingSpaces(s[1..]);
      assert forall k :: 1 <= k < n ==> s[k] == s[1..][k - 1];
      n
    else 0
  }

  /** Where the white space that `s` ends with begins. */
  function TrailingSpacesStart(s: string): (j: nat)
    ensures j <= |s|
    ensures forall k :: j <= k < |s| ==> IsSpace(s[k])
    ensures j > 0 ==> !IsSpace(s[j - 1])
  {
    if s != [] && IsSpace(s[|s| - 1]) then
      var j := TrailingSpacesStart(s[..|s| - 1]);
      assert forall k :: j <= k < |s| - 1 ==> s[k] == s[..|s| - 1][k];
      j
    else |s|
  }

  /** `r` occurs in `s` at index `i` with only white space before and after it. */
  predicate SpacedInfixAt(r: string, s: string, i: nat)
  {
    && i + |r| <= |s| && r == s[i..i + |r|]
    && (forall k :: 0 <= k < i ==> IsSpace(s[k]))
    && (forall k :: i + |r| <= k < |s| ==> IsSpace(s[k]))
  }

  /** `s.trim()`: `s` without the white space it starts and ends with. */
  function Trim(s: string): (r: string)
    ensures r == [] <==> Blank(s)
    ensures r == [] || (!IsSpace(r[0]) && !IsSpace(r[|r| - 1]))
    ensures exists i :: SpacedInfixAt(r, s, i)
  {
    var i := LeadingSpaces(s);
    if i == |s| then
      assert SpacedInfixAt([], s, 0);
      []
    else
      var j := TrailingSpacesStart(s);
      assert !Blank(s) by {
        assert !IsSpace(s[i]);
      }
      assert i < j by {
        assert !IsSpace(s[i]);
      }
      assert s[i..j][0] == s[i] && s[i..j][j - i - 1] == s[j - 1];
      assert SpacedInfixAt(s[i..j], s, i);
      s[i..j]
  }

  /** A string that neither starts nor ends with white space is its own trim. */
  lemma TrimOfTrimmed(s: string)
    requires s == [] || (!IsSpace(s[0]) && !IsSpace(s[|s| - 1]))
    ensures Trim(s) == s
  {
    if s != [] {
      assert LeadingSpaces(s) == 0;
      assert TrailingSpacesStart(s) == |s|;
      assert s[0..|s|] == s;
    }
  }

  /** Trimming a trimmed string changes nothing. */
  lemma {:induction false} TrimIdempotent(s: string)
    ensures Trim(Trim(s)) == Trim(s)
  {
    TrimOfTrimmed(Trim(s));
  }

  // ---------------------------------------------------------------------------------------
  // Form state

  datatype FormState = FormState(
    title: string,
    description: string,
    dueDate: string,
    subtasks: seq<Subtask>,
    newSubtaskText: string)

  /** All fields empty. */
  const EmptyForm := FormState("", "", "", [], "")

  /** `s.substring(0, 10)` */
  function Prefix10(s: string): (r: string)
    ensures |r| <= 10 && r <= s
    ensures |r| == if |s| <= 10 then |s| else 10
  {
    if |s| <= 10 then s else s[..10]
  }

  /** The open/reset effect: when the dialog opens, an edit fills the fields from the task
      (a missing description or subtask list becomes empty, the due date keeps its first ten
      characters) and a new task starts from empty fields; a closed dialog keeps its state. */
  function OnOpen(f: FormState, open: bool, taskToEdit: Option<Task>): (r: FormState)
    ensures !open ==> r == f
    ensures open && taskToEdit.None? ==> r == EmptyForm
    ensures open && taskToEdit.Some? ==>
      var t := taskToEdit.value;
      && r.title == t.title && r.newSubtaskText == ""
      && r.description == (if t.description.Some? then t.description.value else "")
      && r.dueDate == (if t.dueDate.Some? then Prefix10(t.dueDate.value) else "")
      && r.subtasks == (if t.subtasks.Some? then t.subtasks.value else [])
  {
    if !open then f
    else match taskToEdit
      case Some(t) =>
        FormState(
          t.title,
          if t.description.Some? && t.description.value != "" then t.description.value else "",
          if t.dueDate.Some? && t.dueDate.value != "" then Prefix10(t.dueDate.value) else "",
          if t.subtasks.Some? then t.subtasks.value else [],
          "")
      case None => EmptyForm
  }

  // ---------------------------------------------------------------------------------------
  // Subtask list editing

  /** `handleAddSubtask`: blank input does nothing; otherwise one unchecked subtask with the
      trimmed text and a fresh id is appended and the input is cleared. */
  function AddSubtask(f: FormState, freshId: string): (r: FormState)
    ensures Blank(f.newSubtaskText) ==> r == f
    ensures !Blank(f.newSubtaskText) ==>
      && r.subtasks == f.subtasks + [Subtask(freshId, Trim(f.newSubtaskText), false)]
      && r.newSubtaskText == ""
      && r.(subtasks := f.subtasks, newSubtaskText := f.newSubtaskText) == f
    ensures |Trim(f.newSubtaskText)| > 0 <==> |r.subtasks| == |f.subtasks| + 1
  {
    var text := Trim(f.newSubtaskText);
    if text != "" then
      f.(subtasks := f.subtasks + [Subtask(freshId, text, false)], newSubtaskText := "")
    else f
  }

  /** `handleToggleSubtask`: every subtask with `id` has its flag flipped. */
  function ToggleSubtasks(ss: seq<Subtask>, id: string): (r: seq<Subtask>)
    ensures |r| == |ss|
    ensures forall k :: 0 <= k < |ss| ==>
      && r[k].id == ss[k].id && r[k].text == ss[k].text
      && (r[k].completed != ss[k].completed <==> ss[k].id == id)
  {
    seq(|ss|, k requires 0 <= k < |ss| =>
      if ss[k].id == id then ss[k].(completed := !ss[k].completed) else ss[k])
  }

  function ToggleSubtask(f: FormState, id: string): FormState
  {
    f.(subtasks := ToggleSubtasks(f.subtasks, id))
  }

  /** Toggling the same subtask twice restores the list. */
  lemma ToggleSubtasksInvolutive(ss: seq<Subtask>, id: string)
    ensures ToggleSubtasks(ToggleSubtasks(ss, id), id) == ss
  {
    var r := ToggleSubtasks(ToggleSubtasks(ss, id), id);
    assert forall k :: 0 <= k < |ss| ==> r[k] == ss[k];
  }

  /** `handleDeleteSubtask`: the subtasks with `id` are filtered out. */
  function DeleteSubtasks(ss: seq<Subtask>, id: string): (r: seq<Subtask>)
    ensures |r| <= |ss|
    ensures forall st :: st in r <==> st in ss && st.id != id
  {
    if ss == [] then []
    else if ss[0].id == id then DeleteSubtasks(ss[1..], id)
    else [ss[0]] + DeleteSubtasks(ss[1..], id)
  }

  function DeleteSubtask(f: FormState, id: string): FormState
  {
    f.(subtasks := DeleteSubtasks(f.subtasks, id))
  }

  /** Deleting an id no subtask carries keeps the list as it is. */
  lemma {:induction false} DeleteSubtasksMissing(ss: seq<Subtask>, id: string)
    requires forall k :: 0 <= k < |ss| ==> ss[k].id != id
    ensures DeleteSubtasks(ss, id) == ss
  {
    if ss != [] {
      DeleteSubtasksMissing(ss[1..], id);
    }
  }

  /** Deleting twice is deleting once. */
  lemma {:induction false} DeleteSubtasksIdempotent(ss: seq<Subtask>, id: string)
    ensures DeleteSubtasks(DeleteSubtasks(ss, id), id) == DeleteSubtasks(ss, id)
  {
    var r := DeleteSubtasks(ss, id);
    forall k | 0 <= k < |r|
      ensures r[k].id != id
    {
      assert r[k] in r;
    }
    DeleteSubtasksMissing(r, id);
  }

  /** Deleting a subtask just added under a fresh id restores the list. */
  lemma {:induction false} AddThenDelete(f: FormState, freshId: string)
    requires forall k :: 0 <= k < |f.subtasks| ==> f.subtasks[k].id != freshId
    ensures DeleteSubtask(AddSubtask(f, freshId), freshId).subtasks == f.subtasks
  {
    DeleteSubtasksAppend(f.subtasks, [Subtask(freshId, Trim(f.newSubtaskText), false)], freshId);
    DeleteSubtasksMissing(f.subtasks, freshId);
  }

  /** Filtering distributes over concatenation; with the one-element cases this says the
      kept subtasks stay in their order. */
  lemma {:induction false} DeleteSubtasksAppend(a: seq<Subtask>, b: seq<Subtask>, id: string)
    ensures DeleteSubtasks(a + b, id) == DeleteSubtasks(a, id) + DeleteSubtasks(b, id)
  {
    if a != [] {
      assert (a + b)[1..] == a[1..] + b;
      DeleteSubtasksAppend(a[1..], b, id);
    } else {
      assert a + b == b;
    }
  }

  // ---------------------------------------------------------------------------------------
  // Submit

  /** `handleSubmit`: nothing is saved when the title is blank; otherwise the task carries
      the edited task's id and column (or a fresh id and the default column, `notStarted`
      when none is given), the trimmed title, the trimmed description or none when blank,
      the converted due date or none when empty, and the subtask list. */
  function Submit(f: FormState, taskToEdit: Option<Task>, defaultColumnId: Option<ColumnId>,
                  freshId: string, toIso: string -> string): (r: Option<Task>)
    ensures r.None? <==> Blank(f.title)
    ensures r.Some? ==>
      && |r.value.title| > 0 && r.value.title == Trim(f.title)
      && r.value.id == (if taskToEdit.Some? then taskToEdit.value.id else freshId)
      && r.value.columnId == (if taskToEdit.Some? then taskToEdit.value.columnId
                              else if defaultColumnId.Some? then defaultColumnId.value
                              else NotStarted)
      && (r.value.description.None? <==> Blank(f.description))
      && (r.value.description.Some? ==> r.value.description.value == Trim(f.description))
      && r.value.dueDate == (if f.dueDate == "" then None else Some(toIso(f.dueDate)))
      && r.value.subtasks == Some(f.subtasks)
  {
    var title := Trim(f.title);
    if title == "" then None
    else
      var description := Trim(f.description);
      Some(Task(
        if taskToEdit.Some? then taskToEdit.value.id else freshId,
        title,
        if description != "" then Some(description) else None,
        if f.dueDate != "" then Some(toIso(f.dueDate)) else None,
        Some(if |f.subtasks| > 0 then f.subtasks else []),
        if taskToEdit.Some? then taskToEdit.value.columnId
        else if defaultColumnId.Some? then defaultColumnId.value
        else NotStarted))
  }

  /** A task whose title and description are already trimmed and non-empty, and whose
      subtask list is present. */
  predicate Normalized(t: Task)
  {
    && Trimmed(t.title)
    && (t.description.Some? ==> Trimmed(t.description.value))
    && t.subtasks.Some?
  }

  /** Non-empty, and neither starting nor ending with white space. */
  predicate Trimmed(s: string)
  {
    |s| > 0 && !IsSpace(s[0]) && !IsSpace(s[|s| - 1])
  }

  /** A trimmed string is not blank and trims to itself. */
  lemma TrimmedIsKept(s: string)
    requires Trimmed(s)
    ensures !Blank(s) && Trim(s) == s
  {
    TrimOfTrimmed(s);
  }

  /** Submitting an opened edit keeps a trimmed description, and no description stays none. */
  lemma EditKeepsDescription(f: FormState, t: Task, defaultColumnId: Option<ColumnId>,
                             freshId: string, toIso: string -> string)
    requires Normalized(t)
    ensures var r := Submit(OnOpen(f, true, Some(t)), Some(t), defaultColumnId, freshId, toIso);
      r.Some? && r.value.description == t.description
  {
    TrimmedIsKept(t.title);
    if t.description.Some? {
      TrimmedIsKept(t.description.value);
    }
  }

  /** Submitting an opened edit converts the due date cut to ten characters; none stays none. */
  lemma EditConvertsDueDate(f: FormState, t: Task, defaultColumnId: Option<ColumnId>,
                            freshId: string, toIso: string -> string)
    requires Normalized(t)
    ensures var r := Submit(OnOpen(f, true, Some(t)), Some(t), defaultColumnId, freshId, toIso);
      r.Some? && r.value.dueDate == (if t.dueDate.Some? && t.dueDate.value != ""
                                     then Some(toIso(Prefix10(t.dueDate.value))) else None)
  {
    var g := OnOpen(f, true, Some(t));
    assert !Blank(g.title) by {
      assert !IsSpace(g.title[0]);
    }
    if t.dueDate.Some? && t.dueDate.value != "" {
      assert g.dueDate == Prefix10(t.dueDate.value);
      assert g.dueDate[0] == t.dueDate.value[0];
    } else {
      assert g.dueDate == "";
    }
  }

  /** Opening a normalized task for editing and submitting it unchanged gives the task back,
      except that a due date is cut to ten characters and converted again. */
  lemma {:induction false} EditRoundTrip(f: FormState, t: Task, defaultColumnId: Option<ColumnId>,
                                         freshId: string, toIso: string -> string)
    requires Normalized(t)
    ensures Submit(OnOpen(f, true, Some(t)), Some(t), defaultColumnId, freshId, toIso)
      == Some(t.(dueDate := if t.dueDate.Some? && t.dueDate.value != ""
                            then Some(toIso(Prefix10(t.dueDate.value))) else None))
  {
    var r := Submit(OnOpen(f, true, Some(t)), Some(t), defaultColumnId, freshId, toIso);
    TrimmedIsKept(t.title);
    EditKeepsDescription(f, t, defaultColumnId, freshId, toIso);
    EditConvertsDueDate(f, t, defaultColumnId, freshId, toIso);
    assert r.value.id == t.id && r.value.title == t.title;
    assert r.value.columnId == t.columnId && r.value.subtasks == t.subtasks;
  }
}
