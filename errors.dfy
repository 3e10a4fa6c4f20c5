/**
 * The Go `error` values the core produces or inspects, and a result type for
 * the `(value, error)` pairs of Go functions that return one or the other.
 */
module Errors {

  datatype Error =
    | ErrNoRows                          // sql.ErrNoRows
    | ErrDatabase                        // any other failure the database or its driver reports
    | ErrUniqueViolation                 // the users table already holds that username
    | ErrUndefinedColumn(column: string) // a query names a column the table does not have
    | ErrArgumentCount(expected: nat, got: nat) // placeholders and arguments disagree
    | ErrMismatchedHashAndPassword       // bcrypt.ErrMismatchedHashAndPassword
    | ErrMalformedHash                   // bcrypt: the stored bytes are not a bcrypt hash
    | ErrHashing                         // bcrypt.GenerateFromPassword failed
    | ErrTokenGeneration                 // tokens.GenerateToken failed

  datatype Result<+T> = Ok(value: T) | Err(error: Error)
}
