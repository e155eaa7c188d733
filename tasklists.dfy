/** The array operations the board code applies to a column's task list:
    `some`, `findIndex`, `find`, `filter` by id, `splice` insertion and dnd-kit's `arrayMove`. */
module TaskLists {
  import opened Types

  /** The ids of a task list, position by position. */
  function Ids(s: seq<Task>): (r: seq<string>)
    ensures |r| == |s|
    ensures forall i :: 0 <= i < |s| ==> r[i] == s[i].id
  {
    seq(|s|, i requires 0 <= i < |s| => s[i].id)
  }

  lemma IdsAppend(a: seq<Task>, b: seq<Task>)
    ensures Ids(a + b) == Ids(a) + Ids(b)
  {
    assert forall i :: 0 <= i < |a + b| ==> Ids(a + b)[i] == (Ids(a) + Ids(b))[i];
  }

  /** `tasks.some((t) => t.id === id)` */
  predicate Has(s: seq<Task>, id: string)
  {
    exists i :: 0 <= i < |s| && s[i].id == id
  }

  /** A list holds a task with `id` exactly when `id` is counted in the multiset of its ids. */
  lemma HasIffCounted(s: seq<Task>, id: string)
    ensures Has(s, id) <==> multiset(Ids(s))[id] > 0
  {
    if Has(s, id) {
      var i :| 0 <= i < |s| && s[i].id == id;
      assert Ids(s)[i] == id;
    }
  }

  /** Two different positions holding the same id make that id counted twice. */
  lemma {:induction false} TwoPositionsCountTwice(xs: seq<string>, i: nat, j: nat)
    requires i < j < |xs| && xs[i] == xs[j]
    ensures multiset(xs)[xs[i]] >= 2
  {
    assert xs == xs[..j] + xs[j..];
    assert xs[i] == xs[..j][i];
    assert xs[j] == xs[j..][0];
    assert multiset(xs) == multiset(xs[..j]) + multiset(xs[j..]);
  }

  /** A list without repeated entries counts each entry once. */
  lemma {:induction false} DistinctCountsOnce(xs: seq<string>)
    requires forall i, j :: 0 <= i < j < |xs| ==> xs[i] != xs[j]
    ensures forall x :: multiset(xs)[x] <= 1
  {
    if xs != [] {
      DistinctCountsOnce(xs[1..]);
      assert xs == [xs[0]] + xs[1..];
      assert xs[0] !in xs[1..];
    }
  }

  /** `tasks.findIndex((t) => t.id === id)`: the first position holding `id`, or -1. */
  function FindIndex(s: seq<Task>, id: string): (r: int)
    ensures -1 <= r < |s|
    ensures r == -1 <==> !Has(s, id)
    ensures r >= 0 ==> s[r].id == id && forall j :: 0 <= j < r ==> s[j].id != id
  {
    if s == [] then -1
    else if s[0].id == id then 0
    else
      var k := FindIndex(s[1..], id);
      if k == -1 then -1 else k + 1
  }

  /** Lists with the same ids position by position give the same `findIndex` answer. */
  lemma FindIndexOnlyReadsIds(s: seq<Task>, t: seq<Task>, id: string)
    requires Ids(s) == Ids(t)
    ensures FindIndex(s, id) == FindIndex(t, id)
  {
    assert forall j :: 0 <= j < |s| ==> s[j].id == Ids(s)[j] == Ids(t)[j] == t[j].id;
  }

  /** A list's ids decide whether it holds a task with a given id. */
  lemma HasOnlyReadsIds(s: seq<Task>, t: seq<Task>, id: string)
    requires Ids(s) == Ids(t)
    ensures Has(s, id) <==> Has(t, id)
  {
    FindIndexOnlyReadsIds(s, t, id);
  }

  /** `subtasks.findIndex((st) => st.id === id)`: the first position holding `id`, or -1. */
  function FindSubtaskIndex(ss: seq<Subtask>, id: string): (r: int)
    ensures -1 <= r < |ss|
    ensures r == -1 <==> forall j :: 0 <= j < |ss| ==> ss[j].id != id
    ensures r >= 0 ==> ss[r].id == id && forall j :: 0 <= j < r ==> ss[j].id != id
  {
    if ss == [] then -1
    else if ss[0].id == id then 0
    else
      var k := FindSubtaskIndex(ss[1..], id);
      if k == -1 then -1 else k + 1
  }

  /** `tasks.find((t) => t.id === id)` */
  function Find(s: seq<Task>, id: string): (r: Option<Task>)
    ensures r.None? <==> !Has(s, id)
    ensures r.Some? ==> r.value.id == id && r.value in s
    ensures r.Some? ==> r.value == s[FindIndex(s, id)]
  {
    var k := FindIndex(s, id);
    if k == -1 then None else Some(s[k])
  }

  /** `tasks.filter((t) => t.id !== id)` */
  function RemoveId(s: seq<Task>, id: string): (r: seq<Task>)
    ensures |r| <= |s|
    ensures forall t :: t in r <==> t in s && t.id != id
    ensures !Has(s, id) ==> r == s
  {
    if s == [] then []
    else if s[0].id == id then RemoveId(s[1..], id)
    else [s[0]] + RemoveId(s[1..], id)
  }

  /** The ids of a list with one task in front. */
  lemma IdsCons(t: Task, s: seq<Task>)
    ensures multiset(Ids([t] + s)) == multiset{t.id} + multiset(Ids(s))
  {
    IdsAppend([t], s);
  }

  /** Filtering out `id` zeroes its count and keeps every other id's count. */
  lemma {:induction false} RemoveIdCounts(s: seq<Task>, id: string)
    ensures forall x :: multiset(Ids(RemoveId(s, id)))[x] == if x == id then 0 else multiset(Ids(s))[x]
  {
    if s != [] {
      var rest := RemoveId(s[1..], id);
      RemoveIdCounts(s[1..], id);
      assert s == [s[0]] + s[1..];
      IdsCons(s[0], s[1..]);
      if s[0].id != id {
        IdsCons(s[0], rest);
      }
    }
  }

  /** Filtering distributes over concatenation, so the tasks kept stay in their order. */
  lemma {:induction false} RemoveIdAppend(a: seq<Task>, b: seq<Task>, id: string)
    ensures RemoveId(a + b, id) == RemoveId(a, id) + RemoveId(b, id)
  {
    if a != [] {
      assert (a + b)[1..] == a[1..] + b;
      RemoveIdAppend(a[1..], b, id);
    } else {
      assert a + b == b;
    }
  }

  /** Filtering twice removes nothing more. */
  lemma RemoveIdIdempotent(s: seq<Task>, id: string)
    ensures RemoveId(RemoveId(s, id), id) == RemoveId(s, id)
  {
  }

  /** `tasks.map((t) => (t.id === task.id ? task : t))` */
  function ReplaceById(s: seq<Task>, task: Task): (r: seq<Task>)
    ensures |r| == |s|
    ensures forall i :: 0 <= i < |s| ==> r[i] == (if s[i].id == task.id then task else s[i])
  {
    if s == [] then [] else [if s[0].id == task.id then task else s[0]] + ReplaceById(s[1..], task)
  }

  /** `splice(i, 0, x)` on a copy: `x` lands at position `i`, later elements move up by one. */
  function InsertAt<T>(s: seq<T>, i: nat, x: T): (r: seq<T>)
    requires i <= |s|
    ensures |r| == |s| + 1 && r[i] == x
    ensures forall k :: 0 <= k < i ==> r[k] == s[k]
    ensures forall k :: i < k < |r| ==> r[k] == s[k - 1]
    ensures multiset(r) == multiset(s) + multiset{x}
  {
    assert s == s[..i] + s[i..];
    s[..i] + [x] + s[i..]
  }

  /** dnd-kit's `arrayMove(s, from, to)` for indices inside the list: the element at `from`
      is taken out and put back at `to`; the elements between the two shift by one toward
      the vacated slot and every other element stays where it was. */
  function ArrayMove<T>(s: seq<T>, from: nat, to: nat): (r: seq<T>)
    requires from < |s| && to < |s|
    ensures |r| == |s| && multiset(r) == multiset(s)
    ensures r[to] == s[from]
    ensures forall k :: 0 <= k < |s| && k < from && k < to ==> r[k] == s[k]
    ensures forall k :: 0 <= k < |s| && k > from && k > to ==> r[k] == s[k]
    ensures forall k :: from <= k < to ==> r[k] == s[k + 1]
    ensures forall k :: to < k <= from ==> r[k] == s[k - 1]
  {
    var rest := s[..from] + s[from + 1..];
    assert s == s[..from] + [s[from]] + s[from + 1..];
    assert multiset(s) == multiset(rest) + multiset{s[from]};
    assert forall k :: 0 <= k < from ==> rest[k] == s[k];
    assert forall k :: from <= k < |rest| ==> rest[k] == s[k + 1];
    InsertAt(rest, to, s[from])
  }

  /** Moving an element onto its own position changes nothing. */
  lemma ArrayMoveSamePosition<T>(s: seq<T>, i: nat)
    requires i < |s|
    ensures ArrayMove(s, i, i) == s
  {
    var r := ArrayMove(s, i, i);
    assert forall k :: 0 <= k < |s| ==> r[k] == s[k];
  }

  /** Moving back from `to` to `from` undoes a move. */
  lemma ArrayMoveUndo<T>(s: seq<T>, from: nat, to: nat)
    requires from < |s| && to < |s|
    ensures ArrayMove(ArrayMove(s, from, to), to, from) == s
  {
    var m := ArrayMove(s, from, to);
    var r := ArrayMove(m, to, from);
    forall k | 0 <= k < |s|
      ensures r[k] == s[k]
    {
      if k == from {
      } else if from < to && from < k <= to {
        assert r[k] == m[k - 1] == s[k];
      } else if to < from && from > k >= to {
        assert r[k] == m[k + 1] == s[k];
      }
    }
  }

  /** In a list of four, dropping the first onto the third puts it after the third, and
      dropping the last onto the first puts it first. */
  lemma ArrayMoveExamples<T>(s: seq<T>)
    requires |s| == 4
    ensures ArrayMove(s, 0, 2) == [s[1], s[2], s[0], s[3]]
    ensures ArrayMove(s, 3, 0) == [s[3], s[0], s[1], s[2]]
  {
    var r := ArrayMove(s, 0, 2);
    assert forall k :: 0 <= k < 4 ==> r[k] == [s[1], s[2], s[0], s[3]][k];
    var q := ArrayMove(s, 3, 0);
    assert forall k :: 0 <= k < 4 ==> q[k] == [s[3], s[0], s[1], s[2]][k];
  }

  /** Moving tasks moves their ids the same way. */
  lemma IdsArrayMove(s: seq<Task>, from: nat, to: nat)
    requires from < |s| && to < |s|
    ensures Ids(ArrayMove(s, from, to)) == ArrayMove(Ids(s), from, to)
  {
    var m := ArrayMove(s, from, to);
    var a, b := Ids(m), ArrayMove(Ids(s), from, to);
    forall k | 0 <= k < |s|
      ensures a[k] == b[k]
    {
      if k == to {
        assert a[k] == m[k].id == s[from].id == b[k];
      } else if from <= k < to {
        assert a[k] == m[k].id == s[k + 1].id;
      } else if to < k <= from {
        assert a[k] == m[k].id == s[k - 1].id;
      } else {
        assert a[k] == m[k].id == s[k].id;
      }
    }
    assert |a| == |b|;
  }

  /** Inserting a task adds its id to the ids. */
  lemma IdsInsertAt(s: seq<Task>, i: nat, x: Task)
    requires i <= |s|
    ensures Ids(InsertAt(s, i, x)) == InsertAt(Ids(s), i, x.id)
  {
    var m := InsertAt(s, i, x);
    var a, b := Ids(m), InsertAt(Ids(s), i, x.id);
    forall k | 0 <= k < |s| + 1
      ensures a[k] == b[k]
    {
      if k < i {
        assert a[k] == m[k].id == s[k].id;
      } else if k > i {
        assert a[k] == m[k].id == s[k - 1].id;
      }
    }
  }
}
