/**
 * Shared value types of the inventory-report core: the table shapes the
 * program keeps (`[][]string` and `[][2]string`) and the error wrappers that
 * stand in for Go's `(value, error)` returns.
 */
module Common {

  /** An I/O failure reported by a collaborator (directory listing, open, read, stat, sheet lookup). */
  datatype IoError = IoError(message: string)

  datatype Option<T> = None | Some(value: T)

  /** A collaborator's `(value, error)` pair: exactly one of the two is meaningful. */
  datatype Result<T> = Ok(value: T) | Err(error: IoError)

  /** A `[][]string` table: the file table and the free-form control grid. */
  type Grid = seq<seq<string>>

  /** One `[2]string` row of the author table: position 0 is the title (role), position 1 the name. */
  datatype AuthorRow = AuthorRow(title: string, name: string)
}
