# termlist task store, modelled in Dafny

termlist is a command-line task tracker. Users sign up and log in, then add, edit, archive,
delete and filter tasks kept in an SQLite file. This project models its storage core: the
`tasks` table and the statements `add_task`, `get_tasks`, `get_task_by_id`, `delete_task`,
`archive_task` and `edit_task` run on it, the priority filter, and the `users` table with
`create_user` and `authenticate_user`.

Each table is the sequence of its rows in ascending rowid order. Both tables declare
`id INTEGER PRIMARY KEY` without AUTOINCREMENT. For such a table SQLite gives an inserted row
one more than the largest rowid present, or 1 when the table is empty. So after the row with
the highest id is deleted, its id is handed out again (`Rowids.NextRowid`). A whole-table scan
visits rows in rowid order. The model uses that order for `get_tasks`, which has no ORDER BY,
so the order is the model's choice.

The model follows the code in places where a cleaner design might be expected:

- `archive_task` and `delete_task` on a missing id change nothing and raise nothing.
- `edit_task` on a missing id raises TypeError as soon as one argument is falsy, because the missing row (None) is then subscripted. When every argument is truthy the row is never read, and the UPDATE matches nothing.
- `edit_task` treats `""` and `0` like an absent argument, so no edit can empty a field or set the priority to 0.
- `authenticate_user` cannot succeed for any existing user (see Findings). The rest of the model uses the corrected `Users.Authenticate`.
- Deleting the task with the highest id and adding a new one reuses that id. The new row starts with archived 0.

Layout:

- `wrappers.dfy` (`Wrappers`): `Option` and `Result`.
- `errors.dfy` (`Errors`): the exceptions the operations raise, namely IntegrityError, TypeError and AttributeError.
- `sequences.dfy` (`Sequences`): the order-preserving `Filter` behind the SELECT of get_tasks, the DELETE and the list comprehension, and `IsSubsequence`.
- `rowids.dfy` (`Rowids`): rowid allocation and the rowid-order invariant.
- `tasks.dfy` (`Tasks`): the task row, each statement as a function on the table value, and the lemmas about them.
- `task_store.dfy` (`TaskStore`): class `TaskTable`, whose methods change the table in place.
- `users.dfy` (`Users`): the user row, signup and login, and class `UserTable`.
- `scenario.dfy` (`Scenario`): a client that signs a user up, logs in, then adds, edits, archives and deletes a task. It reasons from the method contracts alone.

Timestamps are parameters, not clock readings. `add_task` reads the clock twice, once for
`created_at` and once for `updated_at`, so `AddTask` takes two timestamps. `edit_task` takes one.
Password hashing is external. `create_user` receives the hash bcrypt would compute, since the
salt is random. Checking a password against a stored hash is a function parameter `checkpw`.
`add_task` and `create_user` return nothing in the source. The model returns the new rowid.
`edit_task` also returns nothing. The model returns the number of rows its UPDATE changed, or
the exception it raises.

## Model

| member | source | states |
|---|---|---|
| `Rowids.NextRowid` | src/termlist.py:27 | the rowid of an inserted row is larger than every rowid in the table, and equals the largest plus one, or 1 for an empty table |
| `Rowids.FilterKeepsAscending` | src/termlist.py:81 | a DELETE keeps the rows in strictly ascending rowid order |
| `Tasks.Lookup` | src/termlist.py:106-112 | get_task_by_id gives a row of the table with that id, and gives None exactly when no row has that id |
| `Tasks.Select` | src/termlist.py:70-76 | get_tasks holds exactly the rows with that user_id and that archived value (True as 1, False as 0), in table order |
| `Tasks.SelectPartitions` | src/termlist.py:73 | get_tasks(u, False) and get_tasks(u, True) share no row, and together hold each of user u's rows exactly as many times as the table does, given archived is 0 or 1 |
| `Tasks.FilterByPriority` | src/termlist.py:126 | the filtered list holds exactly the tasks whose priority equals the level, each as often as in the input, in input order (a subsequence) |
| `Tasks.Deleted` | src/termlist.py:81 | the DELETE keeps exactly the rows whose id differs, in order |
| `Tasks.Apply` | src/termlist.py:88-102 | neither UPDATE's SET clause changes id, user_id, status or created_at; `SET archived = 1` changes only the flag; the edit clause leaves archived alone |
| `Tasks.Update` | src/termlist.py:88-101 | an UPDATE ... WHERE id = ? applies its SET clause to the rows with that id and leaves every other row as it was |
| `Tasks.Merged` | src/termlist.py:96-102 | an edited row keeps id, user_id, status, created_at and archived, and its updated_at is the edit time |
| `Tasks.LookupAfterInsert` | src/termlist.py:65-66 | after inserting a row with a fresh id, that id finds the new row and every other id finds what it found before |
| `Tasks.LookupAfterDelete` | src/termlist.py:78-83 | after delete_task(id), get_task_by_id(id) is None and every other id finds what it found before |
| `Tasks.LookupAfterUpdate` | src/termlist.py:88 | after an UPDATE on id, that id finds its old row with the clause applied, or still nothing; every other id finds what it found before |
| `Tasks.UpdateMissing` | src/termlist.py:101 | an UPDATE whose id matches no row leaves the table unchanged |
| `Tasks.DeleteMissing` | src/termlist.py:81 | a DELETE whose id matches no row leaves the table unchanged |
| `Tasks.InsertKeepsWellFormed` | src/termlist.py:37 | the INSERT keeps rowids ascending and positive and archived a 0/1 flag, since the new row has archived 0 |
| `Tasks.DeleteKeepsWellFormed` | src/termlist.py:81 | the DELETE keeps the table invariant |
| `Tasks.UpdateKeepsWellFormed` | src/termlist.py:88 | both UPDATEs keep the table invariant: archived only ever becomes 1 |
| `Tasks.MergeTakesTruthyArguments` | src/termlist.py:96-100 | each of title, description, due_date, priority and tags becomes its argument when the argument is truthy and keeps the stored value when it is None, "" or 0 |
| `Tasks.MergeWithoutArguments` | src/termlist.py:96-102 | an edit with no truthy argument changes only updated_at |
| `Tasks.MergeIdempotent` | src/termlist.py:96-102 | repeating an edit with the same arguments gives the same row up to the timestamp |
| `Tasks.MergeCannotClear` | src/termlist.py:96-100 | an edit cannot make a text field empty or the priority 0 unless it already was |
| `Tasks.ArchiveIdempotent` | src/termlist.py:88 | archiving twice gives the same table as archiving once |
| `TaskStore.TaskTable.constructor` | src/termlist.py:26-39 | the table starts empty and satisfies its invariant |
| `TaskStore.TaskTable.AddTask` | src/termlist.py:62-68 | one row is appended under the next rowid, which no row had. It holds the given user_id, title, description, due_date, priority and tags, status 'Pending', archived 0 and the two timestamps. Every other id is unaffected and no archived flag is cleared |
| `TaskStore.TaskTable.DeleteTask` | src/termlist.py:78-83 | afterwards the id finds nothing and every other id is unaffected. A missing id leaves the table as it was. No archived flag is cleared |
| `TaskStore.TaskTable.ArchiveTask` | src/termlist.py:85-90 | the row with that id gets archived = 1 and nothing else changes. Every other id is unaffected, a missing id is a no-op, and no archived flag is cleared |
| `TaskStore.TaskTable.EditTask` | src/termlist.py:92-104 | an existing row becomes the merge of it with the arguments, with updated_at set to now, and 1 row is updated. A missing id leaves the table as it was: it raises TypeError when some argument is falsy, and updates 0 rows when all are truthy. Other ids are unaffected and no archived flag is cleared |
| `Users.FindByName` | src/termlist.py:55-56 | the lookup gives a row with that username, and gives None exactly when no row has it |
| `Users.Authenticate` | src/termlist.py:52-60 | login gives an id exactly when some row has that username and the password checks against its hash, and the id is that row's |
| `Users.AuthenticateAsWritten` | src/termlist.py:58 | as written, login never yields an id: it gives an error exactly when the username exists, that error is AttributeError, and it gives None otherwise |
| `Users.FindAfterInsert` | src/termlist.py:48 | after an INSERT a name finds what it found before, or the new row when it found nothing |
| `Users.InsertKeepsWellFormed` | src/termlist.py:21 | inserting a new name under the next rowid keeps rowids ascending and usernames unique |
| `Users.AuthenticateAfterSignup` | src/termlist.py:58-60 | after signing up a new name, login with it succeeds with the new id exactly for passwords that check against the stored hash. A name unknown before still fails |
| `Users.AuthenticateAsWrittenFailsAfterSignup` | src/termlist.py:58 | after signup, the source's login raises AttributeError even for the correct password. The corrected login returns the new id |
| `Users.UserTable.constructor` | src/termlist.py:19-23 | the users table starts empty and satisfies its invariant |
| `Users.UserTable.CreateUser` | src/termlist.py:44-50 | a new username is appended under the next rowid and finds its own row afterwards. An existing username raises IntegrityError and changes nothing, so a second signup with the same name fails. Other names are unaffected |

## Left out

- Opening, committing and closing the SQLite connection, and `init_db` creating the schema (src/termlist.py:15-42). Each table starts empty.
- bcrypt: `hashpw` and its random salt become the `hash` argument of `CreateUser`, and `checkpw` becomes a function parameter. The UTF-8 encoding of the typed password is part of that parameter.
- `datetime.now()` and its formatting. Timestamps are string parameters.
- SQLite's 64-bit integer width for parameters: `user_id` and `priority` of `add_task`, `task_id` of `delete_task`, `archive_task`, `edit_task` and `get_task_by_id`, the `priority` argument of `edit_task`, and `user_id` of `get_tasks` are assumed to fit in 64 bits. The OverflowError sqlite3 raises when binding a larger Python int is not modelled.
- The rowid rule when the largest rowid is already 9223372036854775807: SQLite then picks an unused rowid at random. Ids are unbounded integers here.
- `display_tasks` and all `rich` output, including the call to `display_tasks` inside `filter_tasks_by_priority`. The model returns the filtered list instead.
- The `click` commands and `Prompt.ask` input (src/termlist.py:129-204), including `signup` using `authenticate_user` to test whether a name is taken.
- Python's dynamic typing. Arguments have the types the commands give them: text or None for the text fields, an integer or None for the priority.
- Concurrency. Every operation is one sequential step, so the non-atomic read-then-write of `edit_task` is not modelled.
- The foreign key from `tasks.user_id` to `users.id`. SQLite does not enforce it by default, and the model does not either.

## Findings

| source | as written | input that shows it | evidently intended | confidence | as-written member | corrected member |
|---|---|---|---|---|---|---|
| src/termlist.py:47-58 | `bcrypt.hashpw` returns bytes, and sqlite3 stores bytes as a BLOB, so `user[2]` reads back as bytes. `user[2].encode('utf-8')` then raises AttributeError for every existing user. | sign up `alice` with `pw1`, then log in as `alice` with `pw1` | check the password against the stored hash and return the user's id | high; not executed | `Users.AuthenticateAsWrittenFailsAfterSignup` | `Users.AuthenticateAfterSignup` |
