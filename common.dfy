/** Optional values and the two kinds of failure the storage engine reports. */
module Common {

  datatype Option<+T> = None | Some(value: T)

  /** The errors a repository call can pass back from the database:
      a query that returns no row (sql.ErrNoRows), and a statement that
      breaks a FOREIGN KEY constraint. */
  datatype DbError = NoRows | ForeignKeyViolation

  /** A value or the database error that replaced it (Go's `(T, error)`). */
  datatype Result<+T> = Ok(value: T) | Err(error: DbError)

  /** The outcome of a statement that returns only an error (Go's `error`). */
  datatype Outcome = Done | Failed(error: DbError)

  function Min(a: int, b: int): int { if a <= b then a else b }

  function Max(a: int, b: int): int { if a >= b then a else b }
}
