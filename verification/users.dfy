/**
 * The `users` table (src/termlist.py:19-23), signup's INSERT and the login check.
 * Password hashing is outside the model: create_user receives the bcrypt hash it would compute
 * (the salt is random), and checking a password against a stored hash is the parameter `checkpw`.
 * bcrypt.hashpw returns bytes, and sqlite3 stores bytes as a BLOB whatever the column's declared
 * type, so the `password` column holds bytes.
 */
module Users {
  import opened Wrappers
  import opened Errors
  import opened Rowids

  type Bytes = seq<bv8>

  /** One row of `users`: rowid, username (UNIQUE) and the password hash as stored. */
  datatype User = User(id: int, username: string, password: Bytes)

  function UserId(u: User): int { u.id }

  /** The UNIQUE constraint on username. */
  ghost predicate UniqueNames(rows: seq<User>)
  {
    forall i, j :: 0 <= i < j < |rows| ==> rows[i].username != rows[j].username
  }

  ghost predicate WellFormed(rows: seq<User>)
  {
    Ascending(rows, UserId) && UniqueNames(rows) && forall u :: u in rows ==> u.id >= 1
  }

  /** `SELECT * FROM users WHERE username = ?` and fetchone. */
  function FindByName(rows: seq<User>, username: string): (r: Option<User>)
    ensures r.Some? ==> r.value in rows && r.value.username == username
    ensures r.None? <==> forall u :: u in rows ==> u.username != username
  {
    if rows == [] then None
    else if rows[0].username == username then Some(rows[0])
    else FindByName(rows[1..], username)
  }

  /**
   * authenticate_user as it was evidently meant to work: the id of the user with this name when
   * the password checks against that user's stored hash, None otherwise. A wrong password and an
   * unknown name give the same None.
   */
  function Authenticate(rows: seq<User>, username: string, password: string, checkpw: (string, Bytes) -> bool)
    : (r: Option<int>)
    requires UniqueNames(rows)
    ensures r.Some? <==> exists u :: u in rows && u.username == username && checkpw(password, u.password)
    ensures r.Some? ==> exists u :: u in rows && u.username == username && u.id == r.value
  {
    match FindByName(rows, username)
    case None => None
    case Some(u) =>
      if checkpw(password, u.password) then Some(u.id) else None
  }

  /**
   * authenticate_user as written: once a row is found, `user[2].encode('utf-8')` is evaluated on
   * the stored hash, which is bytes, and raises AttributeError before the password is checked.
   */
  function AuthenticateAsWritten(rows: seq<User>, username: string, password: string, checkpw: (string, Bytes) -> bool)
    : (r: Result<Option<int>, Error>)
    ensures r.Ok? ==> r.value.None?
    ensures r.Err? <==> exists u :: u in rows && u.username == username
    ensures r.Err? ==> r.error == AttributeError
  {
    match FindByName(rows, username)
    case None => Ok(None)
    case Some(_) => Err(AttributeError)
  }

  /** After an INSERT, a name finds what it found before, or the new row when it found nothing. */
  lemma {:induction false} FindAfterInsert(rows: seq<User>, x: User, name: string)
    ensures FindByName(rows + [x], name) ==
      if FindByName(rows, name).Some? then FindByName(rows, name)
      else if x.username == name then Some(x) else None
  {
    if rows == [] {
      assert rows + [x] == [x];
    } else {
      assert (rows + [x])[1..] == rows[1..] + [x];
      FindAfterInsert(rows[1..], x, name);
    }
  }

  /**
   * After signup of a new name with hash `hash`, logging in with that name succeeds exactly for the
   * passwords that check against `hash` and yields the new id; a name that was unknown before and is
   * not the new one still fails.
   */
  lemma AuthenticateAfterSignup(
    rows: seq<User>, name: string, hash: Bytes, password: string, other: string, checkpw: (string, Bytes) -> bool)
    requires WellFormed(rows) && FindByName(rows, name).None?
    requires FindByName(rows, other).None? && other != name
    ensures UniqueNames(rows + [User(NextRowid(rows, UserId), name, hash)])
    ensures Authenticate(rows + [User(NextRowid(rows, UserId), name, hash)], name, password, checkpw)
         == if checkpw(password, hash) then Some(NextRowid(rows, UserId)) else None
    ensures Authenticate(rows + [User(NextRowid(rows, UserId), name, hash)], other, password, checkpw) == None
  {
  }

  /** The signup INSERT keeps rowids ascending and usernames unique. */
  lemma InsertKeepsWellFormed(rows: seq<User>, x: User)
    requires WellFormed(rows) && FindByName(rows, x.username).None?
    requires x.id == NextRowid(rows, UserId)
    ensures WellFormed(rows + [x])
  {
    AppendKeepsAscending(rows, UserId, x);
  }

  /**
   * The source's login never succeeds: after a signup, authenticate_user with that name raises
   * AttributeError for every password, including the one whose hash was stored.
   */
  lemma AuthenticateAsWrittenFailsAfterSignup(
    rows: seq<User>, name: string, hash: Bytes, password: string, checkpw: (string, Bytes) -> bool)
    requires WellFormed(rows) && FindByName(rows, name).None?
    requires checkpw(password, hash)
    ensures AuthenticateAsWritten(rows + [User(NextRowid(rows, UserId), name, hash)], name, password, checkpw)
         == Err(AttributeError)
    ensures Authenticate(rows + [User(NextRowid(rows, UserId), name, hash)], name, password, checkpw)
         == Some(NextRowid(rows, UserId))
  {
  }

  class UserTable {
    /** The rows in rowid order. */
    var rows: seq<User>

    ghost predicate Valid()
      reads this
    {
      WellFormed(rows)
    }

    constructor ()
      ensures Valid() && rows == []
    {
      rows := [];
    }

    /**
     * create_user: INSERT (username, hash) under the next rowid, which is returned; an existing
     * username violates the UNIQUE constraint, raises IntegrityError and leaves the table as it is.
     * Afterwards the name finds the new row, so a second signup with it fails.
     */
    method CreateUser(username: string, hash: Bytes) returns (r: Result<int, Error>)
      requires Valid()
      modifies this
      ensures Valid()
      ensures r.Err? <==> FindByName(old(rows), username).Some?
      ensures r.Err? ==> r.error == IntegrityError && rows == old(rows)
      ensures r.Ok? ==> r.value == NextRowid(old(rows), UserId) && rows == old(rows) + [User(r.value, username, hash)]
      ensures r.Ok? ==> FindByName(rows, username) == Some(User(r.value, username, hash))
      ensures forall name :: name != username ==> FindByName(rows, name) == FindByName(old(rows), name)
    {
      if FindByName(rows, username).Some? {
        return Err(IntegrityError);
      }
      ghost var before := rows;
      var x := User(NextRowid(rows, UserId), username, hash);
      InsertKeepsWellFormed(rows, x);
      rows := rows + [x];
      forall name ensures FindByName(rows, name) == if FindByName(before, name).Some? then FindByName(before, name)
        else if x.username == name then Some(x) else None
      {
        FindAfterInsert(before, x, name);
      }
      r := Ok(x.id);
    }
  }
}
