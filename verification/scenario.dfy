/**
 * A client of the two tables: one user signs up and logs in, adds a task, raises its priority,
 * archives it and deletes it. Every step is justified by the contracts of the methods alone.
 */
module Scenario {
  import opened Wrappers
  import opened Errors
  import opened Users
  import opened Tasks
  import opened TaskStore

  method SignupAndTaskLifecycle(hash: Bytes, checkpw: (string, Bytes) -> bool)
    requires checkpw("pw1", hash) && !checkpw("pw2", hash)
  {
    var users := new UserTable();
    var alice := users.CreateUser("alice", hash);
    assert alice == Ok(1);
    var again := users.CreateUser("alice", hash);
    assert again == Err(IntegrityError);
    assert Authenticate(users.rows, "alice", "pw1", checkpw) == Some(1);
    assert Authenticate(users.rows, "alice", "pw2", checkpw) == None;

    var tasks := new TaskTable();
    var id := tasks.AddTask(1, "Buy milk", "2%", "2024-01-01", 2, "errand", "2024-01-01 09:00:00", "2024-01-01 09:00:00");
    assert id == 1;
    var t := Task(1, 1, "Buy milk", "2%", "2024-01-01", 2, "Pending", "errand", "2024-01-01 09:00:00", "2024-01-01 09:00:00", 0);
    assert tasks.rows == [t];

    var edited := tasks.EditTask(1, EditArgs(None, None, None, Some(5), None), "2024-01-02 10:00:00");
    assert edited == Ok(1);
    var t' := t.(priority := 5, updatedAt := "2024-01-02 10:00:00");
    assert Lookup(tasks.rows, 1) == Some(t');

    tasks.ArchiveTask(1);
    assert tasks.rows == [t'.(archived := 1)];
    assert Select(tasks.rows, 1, true) == [t'.(archived := 1)];
    assert Select(tasks.rows, 1, false) == [];

    tasks.DeleteTask(1);
    assert Lookup(tasks.rows, 1) == None;

    var missing := tasks.EditTask(1, EditArgs(None, None, None, Some(5), None), "2024-01-03 10:00:00");
    assert missing == Err(TypeError);
  }
}
