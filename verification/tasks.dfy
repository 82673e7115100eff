/**
 * The rows of the `tasks` table (src/termlist.py:26-39) and the meaning of the statements run
 * on it: the INSERT of add_task, the SELECTs of get_tasks and get_task_by_id, the DELETE of
 * delete_task, the two UPDATEs of archive_task and edit_task, and the priority filter.
 * The table is the sequence of its rows in ascending rowid order (see module Rowids).
 */
module Tasks {
  import opened Wrappers
  import opened Sequences
  import opened Rowids

  /** One row of `tasks`; `archived` is the INTEGER column that only ever holds 0 or 1. */
  datatype Task = Task(
    id: int,
    userId: int,
    title: string,
    description: string,
    dueDate: string,
    priority: int,
    status: string,
    tags: string,
    createdAt: string,
    updatedAt: string,
    archived: int)

  function TaskId(t: Task): int { t.id }

  /** The status every task is created with; no operation changes it. */
  const PENDING := "Pending"

  /** sqlite3 binds a Python bool as the integer 1 or 0. */
  function SqlBool(b: bool): int { if b then 1 else 0 }

  /** What the operations keep true of the table: rowids ascending and positive, archived a 0/1 flag. */
  ghost predicate WellFormed(rows: seq<Task>)
  {
    && Ascending(rows, TaskId)
    && forall t :: t in rows ==> t.id >= 1 && (t.archived == 0 || t.archived == 1)
  }

  /** The row add_task inserts: status 'Pending', archived left at its DEFAULT 0. */
  function NewTask(
    id: int, userId: int, title: string, description: string, dueDate: string,
    priority: int, tags: string, createdAt: string, updatedAt: string): Task
  {
    Task(id, userId, title, description, dueDate, priority, PENDING, tags, createdAt, updatedAt, 0)
  }

  /** get_task_by_id: `SELECT * FROM tasks WHERE id = ?` and fetchone; None when there is no such row. */
  function Lookup(rows: seq<Task>, id: int): (r: Option<Task>)
    ensures r.Some? ==> r.value in rows && r.value.id == id
    ensures r.None? <==> forall t :: t in rows ==> t.id != id
  {
    if rows == [] then None
    else if rows[0].id == id then Some(rows[0])
    else Lookup(rows[1..], id)
  }

  /** get_tasks: the rows `WHERE user_id = ? AND archived = ?`, in rowid order. */
  function Select(rows: seq<Task>, userId: int, archived: bool): (r: seq<Task>)
    ensures forall t :: t in r <==> t in rows && t.userId == userId && t.archived == SqlBool(archived)
    ensures IsSubsequence(r, rows)
  {
    Filter(rows, (t: Task) => t.userId == userId && t.archived == SqlBool(archived))
  }

  /** All rows of one user, archived or not: the set that get_tasks splits in two. */
  function OwnedBy(rows: seq<Task>, userId: int): seq<Task>
  {
    Filter(rows, (t: Task) => t.userId == userId)
  }

  /** The comprehension of filter_tasks_by_priority: the tasks whose priority equals `level`, in order. */
  function FilterByPriority(tasks: seq<Task>, level: int): (r: seq<Task>)
    ensures forall t :: t in r <==> t in tasks && t.priority == level
    ensures forall t :: multiset(r)[t] == if t.priority == level then multiset(tasks)[t] else 0
    ensures IsSubsequence(r, tasks)
  {
    Filter(tasks, (t: Task) => t.priority == level)
  }

  /** delete_task: `DELETE FROM tasks WHERE id = ?`. */
  function Deleted(rows: seq<Task>, id: int): (r: seq<Task>)
    ensures forall t :: t in r <==> t in rows && t.id != id
    ensures IsSubsequence(r, rows)
  {
    Filter(rows, (t: Task) => t.id != id)
  }

  /** The SET part of the two UPDATE statements on `tasks`. */
  datatype SetClause =
    /** archive_task: `SET archived = 1`. */
    | SetArchived
    /** edit_task: `SET title = ?, description = ?, due_date = ?, priority = ?, tags = ?, updated_at = ?`. */
    | SetEdited(title: string, description: string, dueDate: string, priority: int, tags: string, updatedAt: string)

  /** A row after a SET clause; neither clause touches id, user_id, status or created_at. */
  function Apply(c: SetClause, t: Task): (r: Task)
    ensures r.id == t.id && r.userId == t.userId && r.status == t.status && r.createdAt == t.createdAt
    ensures c.SetEdited? ==> r.archived == t.archived
    ensures c.SetArchived? ==> r == t.(archived := 1)
  {
    match c
    case SetArchived => t.(archived := 1)
    case SetEdited(title, description, dueDate, priority, tags, updatedAt) =>
      t.(title := title, description := description, dueDate := dueDate,
         priority := priority, tags := tags, updatedAt := updatedAt)
  }

  /** `UPDATE tasks SET c WHERE id = ?`: every row with that id gets the clause, the others stay. */
  function Update(rows: seq<Task>, id: int, c: SetClause): (r: seq<Task>)
    ensures |r| == |rows|
    ensures forall i :: 0 <= i < |rows| ==> r[i] == if rows[i].id == id then Apply(c, rows[i]) else rows[i]
  {
    if rows == [] then []
    else [if rows[0].id == id then Apply(c, rows[0]) else rows[0]] + Update(rows[1..], id, c)
  }

  /** The optional arguments of edit_task; None is Python's default None. */
  datatype EditArgs = EditArgs(
    title: Option<string>,
    description: Option<string>,
    dueDate: Option<string>,
    priority: Option<int>,
    tags: Option<string>)

  /** Python truthiness of a str-or-None argument: not None and not empty. */
  predicate Truthy(v: Option<string>) { v.Some? && v.value != "" }

  /** Python truthiness of an int-or-None argument: not None and not 0. */
  predicate TruthyInt(v: Option<int>) { v.Some? && v.value != 0 }

  predicate AllTruthy(e: EditArgs)
  {
    Truthy(e.title) && Truthy(e.description) && Truthy(e.dueDate) && TruthyInt(e.priority) && Truthy(e.tags)
  }

  /** `arg if arg else stored` */
  function OrStored(arg: Option<string>, stored: string): string
  {
    if Truthy(arg) then arg.value else stored
  }

  /** `arg if arg else stored` for the priority */
  function OrStoredInt(arg: Option<int>, stored: int): int
  {
    if TruthyInt(arg) then arg.value else stored
  }

  /** The SET clause edit_task builds from the row it read first and its arguments. */
  function EditClause(t: Task, e: EditArgs, now: string): SetClause
  {
    SetEdited(OrStored(e.title, t.title), OrStored(e.description, t.description),
              OrStored(e.dueDate, t.dueDate), OrStoredInt(e.priority, t.priority),
              OrStored(e.tags, t.tags), now)
  }

  /** The SET clause edit_task builds when every argument is truthy: the row is never read. */
  function ArgumentClause(e: EditArgs, now: string): SetClause
    requires AllTruthy(e)
  {
    SetEdited(e.title.value, e.description.value, e.dueDate.value, e.priority.value, e.tags.value, now)
  }

  /** The row `t` after edit_task with arguments `e` at time `now`. */
  function Merged(t: Task, e: EditArgs, now: string): (r: Task)
    ensures r.id == t.id && r.userId == t.userId && r.status == t.status
    ensures r.createdAt == t.createdAt && r.archived == t.archived
    ensures r.updatedAt == now
  {
    Apply(EditClause(t, e, now), t)
  }

  /** A surviving row that was archived is still archived: no statement clears the flag. */
  ghost predicate ArchivedStays(before: seq<Task>, after: seq<Task>)
  {
    forall k :: Lookup(before, k).Some? && Lookup(before, k).value.archived == 1 && Lookup(after, k).Some?
      ==> Lookup(after, k).value.archived == 1
  }

  // ---------------------------------------------------------------------------------------------
  // Lookups after each statement: the frame conditions "only row `id` changes".

  /** After an INSERT of a row with a fresh id, that id finds the new row and every other id finds what it found before. */
  lemma {:induction false} LookupAfterInsert(rows: seq<Task>, t: Task, k: int)
    requires Lookup(rows, t.id).None?
    ensures Lookup(rows + [t], k) == if k == t.id then Some(t) else Lookup(rows, k)
  {
    if rows == [] {
      assert rows + [t] == [t];
    } else {
      assert (rows + [t])[1..] == rows[1..] + [t];
      LookupAfterInsert(rows[1..], t, k);
    }
  }

  /** After `DELETE WHERE id = ?` that id finds nothing and every other id finds what it found before. */
  lemma {:induction false} LookupAfterDelete(rows: seq<Task>, id: int, k: int)
    ensures Lookup(Deleted(rows, id), k) == if k == id then None else Lookup(rows, k)
  {
    if rows != [] && k != id {
      LookupAfterDelete(rows[1..], id, k);
      if rows[0].id != id {
        assert Deleted(rows, id) == [rows[0]] + Deleted(rows[1..], id);
      } else {
        assert Deleted(rows, id) == Deleted(rows[1..], id);
      }
    }
  }

  /** After `UPDATE ... WHERE id = ?` that id finds its old row with the clause applied, every other id its old row. */
  lemma {:induction false} LookupAfterUpdate(rows: seq<Task>, id: int, c: SetClause, k: int)
    ensures Lookup(Update(rows, id, c), k) ==
      if k != id then Lookup(rows, k)
      else match Lookup(rows, id) case Some(t) => Some(Apply(c, t)) case None => None
  {
    if rows != [] {
      LookupAfterUpdate(rows[1..], id, c, k);
      assert Update(rows, id, c)[1..] == Update(rows[1..], id, c);
    }
  }

  /** An UPDATE whose WHERE matches no row changes nothing. */
  lemma UpdateMissing(rows: seq<Task>, id: int, c: SetClause)
    requires Lookup(rows, id).None?
    ensures Update(rows, id, c) == rows
  {
  }

  /** A DELETE whose WHERE matches no row changes nothing. */
  lemma DeleteMissing(rows: seq<Task>, id: int)
    requires Lookup(rows, id).None?
    ensures Deleted(rows, id) == rows
  {
  }

  // ---------------------------------------------------------------------------------------------
  // The table invariant is kept by every statement.

  lemma InsertKeepsWellFormed(rows: seq<Task>, t: Task)
    requires WellFormed(rows)
    requires t.id == NextRowid(rows, TaskId) && t.archived == 0
    ensures WellFormed(rows + [t])
  {
    AppendKeepsAscending(rows, TaskId, t);
  }

  lemma DeleteKeepsWellFormed(rows: seq<Task>, id: int)
    requires WellFormed(rows)
    ensures WellFormed(Deleted(rows, id))
  {
    FilterKeepsAscending(rows, TaskId, (t: Task) => t.id != id);
  }

  lemma UpdateKeepsWellFormed(rows: seq<Task>, id: int, c: SetClause)
    requires WellFormed(rows)
    ensures WellFormed(Update(rows, id, c))
  {
    var r := Update(rows, id, c);
    forall t | t in r ensures t.id >= 1 && (t.archived == 0 || t.archived == 1) {
      var i :| 0 <= i < |r| && r[i] == t;
      assert rows[i] in rows;
    }
  }

  // ---------------------------------------------------------------------------------------------
  // Properties of the queries and of the edit merge.

  /**
   * get_tasks(u, False) and get_tasks(u, True) split the user's rows between them: together they hold
   * each of the user's rows exactly as often as the table does, and no row is in both.
   */
  lemma SelectPartitions(rows: seq<Task>, userId: int)
    requires forall t :: t in rows ==> t.archived == 0 || t.archived == 1
    ensures multiset(Select(rows, userId, false)) + multiset(Select(rows, userId, true))
         == multiset(OwnedBy(rows, userId))
    ensures forall t :: t in Select(rows, userId, false) ==> t !in Select(rows, userId, true)
  {
  }

  /** An argument that is truthy replaces the stored field; a falsy one (None, "" or 0) leaves it. */
  lemma MergeTakesTruthyArguments(t: Task, e: EditArgs, now: string)
    ensures Merged(t, e, now).title == if Truthy(e.title) then e.title.value else t.title
    ensures Merged(t, e, now).description == if Truthy(e.description) then e.description.value else t.description
    ensures Merged(t, e, now).dueDate == if Truthy(e.dueDate) then e.dueDate.value else t.dueDate
    ensures Merged(t, e, now).priority == if TruthyInt(e.priority) then e.priority.value else t.priority
    ensures Merged(t, e, now).tags == if Truthy(e.tags) then e.tags.value else t.tags
  {
  }

  /** An edit with no truthy argument changes only updated_at. */
  lemma MergeWithoutArguments(t: Task, e: EditArgs, now: string)
    requires !Truthy(e.title) && !Truthy(e.description) && !Truthy(e.dueDate)
    requires !TruthyInt(e.priority) && !Truthy(e.tags)
    ensures Merged(t, e, now) == t.(updatedAt := now)
  {
  }

  /** Repeating an edit with the same arguments gives the same row, up to its timestamp. */
  lemma MergeIdempotent(t: Task, e: EditArgs, now1: string, now2: string)
    ensures Merged(Merged(t, e, now1), e, now2) == Merged(t, e, now2)
  {
  }

  /** No edit can make a text field empty or the priority 0 unless it already was. */
  lemma MergeCannotClear(t: Task, e: EditArgs, now: string)
    ensures Merged(t, e, now).title == "" ==> t.title == ""
    ensures Merged(t, e, now).description == "" ==> t.description == ""
    ensures Merged(t, e, now).dueDate == "" ==> t.dueDate == ""
    ensures Merged(t, e, now).priority == 0 ==> t.priority == 0
    ensures Merged(t, e, now).tags == "" ==> t.tags == ""
  {
  }

  /** archive_task twice is archive_task once. */
  lemma ArchiveIdempotent(rows: seq<Task>, id: int)
    ensures Update(Update(rows, id, SetArchived), id, SetArchived) == Update(rows, id, SetArchived)
  {
  }
}
