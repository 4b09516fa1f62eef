/** The exceptions the core can raise, and the result type that replaces throwing them. */
module Results {

  /** The .NET exceptions that can escape from the bulk actions. */
  datatype Exception =
    | UnauthorizedAccess   // the path guard refused a path
    | Argument             // Path.GetFullPath was given an empty path or one holding NUL
    | IO                   // a move onto an existing entry, or a directory created over a file
    | FileNotFound         // the file to move does not exist
    | DirectoryNotFound    // the folder a file is moved into does not exist

  /** A value, or the exception that was thrown instead. */
  datatype Result<+T> = Ok(value: T) | Err(error: Exception)

  datatype Option<+T> = None | Some(value: T)
}
