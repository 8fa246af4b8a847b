/** The `/list` command: the caller's rows ordered by `completed, deadline`,
    rendered as a header and one line per task, or the "no tasks" sentinel. */
module Listing {
  import opened Text
  import opened Records

  /** `ORDER BY completed, deadline`: open tasks first, then by deadline. */
  predicate Precedes(a: Task, b: Task) {
    if a.completed != b.completed then !a.completed else a.deadline <= b.deadline
  }

  predicate Sorted(s: seq<Task>) {
    forall i, j :: 0 <= i < j < |s| ==> Precedes(s[i], s[j])
  }

  /** No two rows share an id. */
  predicate DistinctIds(s: seq<Task>) {
    forall i, j :: 0 <= i < j < |s| ==> s[i].id != s[j].id
  }

  function Insert(t: Task, s: seq<Task>): (r: seq<Task>)
    requires Sorted(s)
    ensures Sorted(r)
    ensures multiset(r) == multiset(s) + multiset{t}
  {
    if s == [] then [t]
    else if Precedes(t, s[0]) then [t] + s
    else
      var rest := Insert(t, s[1..]);
      assert s == [s[0]] + s[1..];
      assert forall x :: x in rest ==> Precedes(s[0], x) by {
        forall x | x in rest
          ensures Precedes(s[0], x)
        {
          assert x in multiset(rest);
          if x != t {
            assert x in multiset(s[1..]);
            var k :| 0 <= k < |s[1..]| && s[1..][k] == x;
            assert s[k + 1] == x;
          }
        }
      }
      [s[0]] + rest
  }

  /** Insertion sort on the listing order; rows that tie keep their order. */
  function Sort(s: seq<Task>): (r: seq<Task>)
    ensures Sorted(r)
    ensures multiset(r) == multiset(s)
  {
    if s == [] then []
    else
      assert s == [s[0]] + s[1..];
      Insert(s[0], Sort(s[1..]))
  }

  lemma {:induction false} DistinctIdsOccurOnce(s: seq<Task>, x: Task)
    requires DistinctIds(s)
    ensures multiset(s)[x] <= 1
  {
    if s != [] {
      assert s == [s[0]] + s[1..];
      DistinctIdsOccurOnce(s[1..], x);
      if s[0] == x {
        assert x !in s[1..];
      }
    }
  }

  lemma RepeatedOccursTwice(s: seq<Task>, i: nat, j: nat)
    requires i < j < |s| && s[i] == s[j]
    ensures multiset(s)[s[i]] >= 2
  {
    assert s == s[..j] + s[j..];
    assert s[i] in s[..j];
    assert s[j] in s[j..];
    assert multiset(s) == multiset(s[..j]) + multiset(s[j..]);
  }

  /** Reordering rows cannot make two of them share an id. */
  lemma PermutationKeepsDistinctIds(a: seq<Task>, b: seq<Task>)
    requires DistinctIds(a)
    requires multiset(a) == multiset(b)
    ensures DistinctIds(b)
  {
    forall i, j | 0 <= i < j < |b|
      ensures b[i].id != b[j].id
    {
      assert b[i] in multiset(a) && b[j] in multiset(a);
      if b[i] == b[j] {
        RepeatedOccursTwice(b, i, j);
        DistinctIdsOccurOnce(a, b[i]);
      }
    }
  }

  /** The rows `/list` fetches for `user`: every row the user owns, each once,
      in listing order. */
  function Query(tasks: map<nat, Task>, n: nat, user: int): (rows: seq<Task>)
    requires WellKeyed(tasks) && KeysBelow(tasks, n)
    ensures Sorted(rows)
    ensures forall t :: t in rows <==> (t.id in tasks && tasks[t.id] == t && t.owner == user)
    ensures DistinctIds(rows)
  {
    var owned := Select(tasks, n, (t: Task) => t.owner == user);
    var rows := Sort(owned);
    assert forall t :: t in rows <==> t in multiset(owned);
    PermutationKeepsDistinctIds(owned, rows);
    rows
  }

  const NoTasks: string := "No tasks found."
  const ListHeader: string :=
    "id: description" + " - category" + " - completed" + " - due by deadline"

  /** One line of the listing: `{id}: {desc} - {cat} - True|False - due by {deadline}`. */
  function RenderRow(t: Task): string {
    NatToString(t.id) + ": " + t.description + " - " + t.category + " - "
    + (if t.completed then "True" else "False") + " - due by " + t.deadlineText
  }

  function RenderRows(rows: seq<Task>): (lines: seq<string>)
    ensures |lines| == |rows|
    ensures forall i :: 0 <= i < |rows| ==> lines[i] == RenderRow(rows[i])
  {
    if rows == [] then [] else [RenderRow(rows[0])] + RenderRows(rows[1..])
  }

  /** The reply of `/list` for the fetched rows: the sentinel exactly when
      there is nothing to list, otherwise the header line first. */
  function RenderList(rows: seq<Task>): (reply: string)
    ensures rows == [] <==> reply == NoTasks
    ensures rows != [] ==> ListHeader + "\n" <= reply
  {
    if rows == [] then NoTasks
    else ListHeader + "\n" + Join(RenderRows(rows), "\n")
  }

  /** A row whose free-text fields hold no line break. */
  predicate SingleLine(t: Task) {
    '\n' !in t.description && '\n' !in t.category && '\n' !in t.deadlineText
  }

  lemma RenderRowSingleLine(t: Task)
    requires SingleLine(t)
    ensures '\n' !in RenderRow(t)
  {
    var s := NatToString(t.id);
    assert forall i :: 0 <= i < |s| ==> IsDigit(s[i]);
    assert '\n' !in s;
  }

  /** With single-line fields, the listing has the header as its first line
      and then exactly one line per row, in the fetched order. */
  lemma {:induction false} RenderListLines(rows: seq<Task>)
    requires rows != []
    requires forall t :: t in rows ==> SingleLine(t)
    ensures Split(RenderList(rows), '\n') == [ListHeader] + RenderRows(rows)
  {
    var lines := RenderRows(rows);
    var all := [ListHeader] + lines;
    assert all[1..] == lines;
    assert Join(all, "\n") == ListHeader + "\n" + Join(lines, "\n");
    forall i | 0 <= i < |all|
      ensures '\n' !in all[i]
    {
      if i > 0 {
        assert all[i] == RenderRow(rows[i - 1]);
        RenderRowSingleLine(rows[i - 1]);
      }
    }
    SplitJoin(all, '\n');
  }
}
