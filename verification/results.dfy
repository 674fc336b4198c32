/**
 The exceptions a repository sync can end with, the value-or-exception result
 every step of the engine returns in place of Python's `raise`, and `Option`
 for Python's `None`.
 */
module Results {

  datatype Option<+T> = None | Some(value: T)

  /** The exceptions that reach the batch aggregation. */
  datatype Exception =
    | GitError(message: string)  // `repo_sync.GitError(message)`
    | IndexError                 // `line.split()[1]` on a diff line with fewer than two fields
  {
    /** `str(e)`, the text the batch result and the notification carry. */
    function Str(): string
    {
      match this
      case GitError(m) => m
      case IndexError => "list index out of range"
    }
  }

  /** A value, or the exception raised instead of returning one. */
  datatype Result<+T> = Ok(value: T) | Raised(exc: Exception)
}
