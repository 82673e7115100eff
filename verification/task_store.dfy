/**
 * The `tasks` table as state that add_task, delete_task, archive_task and edit_task change in
 * place. Each method runs the statement its source function runs and says what the table is
 * afterwards and which lookups it leaves alone. The two timestamps are parameters instead of
 * readings of the clock.
 */
module TaskStore {
  import opened Wrappers
  import opened Errors
  import opened Rowids
  import opened Tasks

  class TaskTable {
    /** The rows in rowid order. */
    var rows: seq<Task>

    ghost predicate Valid()
      reads this
    {
      WellFormed(rows)
    }

    /** A freshly created, empty table. */
    constructor ()
      ensures Valid() && rows == []
    {
      rows := [];
    }

    /**
     * add_task: INSERT one row with status 'Pending' and archived 0 under the next rowid, which is
     * returned. `createdAt` and `updatedAt` are the two readings of the clock the INSERT takes.
     */
    method AddTask(
      userId: int, title: string, description: string, dueDate: string, priority: int,
      tags: string, createdAt: string, updatedAt: string) returns (id: int)
      requires Valid()
      modifies this
      ensures Valid()
      ensures id == NextRowid(old(rows), TaskId) && Lookup(old(rows), id).None?
      ensures rows == old(rows) + [NewTask(id, userId, title, description, dueDate, priority, tags, createdAt, updatedAt)]
      ensures Lookup(rows, id) == Some(Task(id, userId, title, description, dueDate, priority, "Pending", tags, createdAt, updatedAt, 0))
      ensures forall k :: k != id ==> Lookup(rows, k) == Lookup(old(rows), k)
      ensures ArchivedStays(old(rows), rows)
    {
      ghost var before := rows;
      id := NextRowid(rows, TaskId);
      var t := NewTask(id, userId, title, description, dueDate, priority, tags, createdAt, updatedAt);
      InsertKeepsWellFormed(rows, t);
      rows := rows + [t];
      forall k ensures Lookup(rows, k) == if k == id then Some(t) else Lookup(before, k) {
        LookupAfterInsert(before, t, k);
      }
    }

    /** delete_task: DELETE the row with this id; a missing id leaves the table as it is. */
    method DeleteTask(id: int)
      requires Valid()
      modifies this
      ensures Valid()
      ensures rows == Deleted(old(rows), id)
      ensures Lookup(rows, id).None?
      ensures forall k :: k != id ==> Lookup(rows, k) == Lookup(old(rows), k)
      ensures Lookup(old(rows), id).None? ==> rows == old(rows)
      ensures ArchivedStays(old(rows), rows)
    {
      ghost var before := rows;
      DeleteKeepsWellFormed(rows, id);
      if Lookup(rows, id).None? {
        DeleteMissing(rows, id);
      }
      rows := Deleted(rows, id);
      forall k ensures Lookup(rows, k) == if k == id then None else Lookup(before, k) {
        LookupAfterDelete(before, id, k);
      }
    }

    /**
     * archive_task: `UPDATE tasks SET archived = 1 WHERE id = ?`. Only that row's flag changes;
     * a missing id leaves the table as it is.
     */
    method ArchiveTask(id: int)
      requires Valid()
      modifies this
      ensures Valid()
      ensures rows == Update(old(rows), id, SetArchived)
      ensures Lookup(rows, id) == match Lookup(old(rows), id)
        case Some(t) => Some(t.(archived := 1))
        case None => None
      ensures forall k :: k != id ==> Lookup(rows, k) == Lookup(old(rows), k)
      ensures Lookup(old(rows), id).None? ==> rows == old(rows)
      ensures ArchivedStays(old(rows), rows)
    {
      ghost var before := rows;
      UpdateKeepsWellFormed(rows, id, SetArchived);
      if Lookup(rows, id).None? {
        UpdateMissing(rows, id, SetArchived);
      }
      rows := Update(rows, id, SetArchived);
      forall k ensures Lookup(rows, k) == if k != id then Lookup(before, k)
        else match Lookup(before, id) case Some(t) => Some(Apply(SetArchived, t)) case None => None
      {
        LookupAfterUpdate(before, id, SetArchived, k);
      }
    }

    /**
     * edit_task: read the row, keep each stored field whose argument is falsy, and UPDATE title,
     * description, due_date, priority, tags and updated_at. The result is the number of rows the
     * UPDATE changed, or the TypeError raised when the row is missing and some argument is falsy
     * (the missing row, None, is subscripted). With every argument truthy a missing row is never
     * read and the UPDATE matches nothing.
     */
    method EditTask(id: int, e: EditArgs, now: string) returns (r: Result<nat, Error>)
      requires Valid()
      modifies this
      ensures Valid()
      ensures Lookup(old(rows), id).Some? ==>
        && r == Ok(1)
        && rows == Update(old(rows), id, EditClause(Lookup(old(rows), id).value, e, now))
        && Lookup(rows, id) == Some(Merged(Lookup(old(rows), id).value, e, now))
      ensures Lookup(old(rows), id).None? ==>
        && rows == old(rows)
        && r == if AllTruthy(e) then Ok(0) else Err(TypeError)
      ensures forall k :: k != id ==> Lookup(rows, k) == Lookup(old(rows), k)
      ensures ArchivedStays(old(rows), rows)
    {
      ghost var before := rows;
      var task := Lookup(rows, id);
      var clause;
      if task.Some? {
        clause := EditClause(task.value, e, now);
      } else if AllTruthy(e) {
        clause := ArgumentClause(e, now);
        UpdateMissing(rows, id, clause);
      } else {
        return Err(TypeError);
      }
      UpdateKeepsWellFormed(rows, id, clause);
      rows := Update(rows, id, clause);
      forall k ensures Lookup(rows, k) == if k != id then Lookup(before, k)
        else match Lookup(before, id) case Some(t) => Some(Apply(clause, t)) case None => None
      {
        LookupAfterUpdate(before, id, clause, k);
      }
      r := if task.Some? then Ok(1) else Ok(0);
    }
  }
}
