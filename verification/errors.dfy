/** The exceptions that the task and user operations can raise. */
module Errors {

  datatype Error =
    /** sqlite3.IntegrityError: an INSERT violated the UNIQUE constraint on users.username. */
    | IntegrityError
    /** TypeError: a row that does not exist (Python None) was subscripted. */
    | TypeError
    /** AttributeError: `.encode` was called on a bytes value. */
    | AttributeError
}
