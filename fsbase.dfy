/**
 * The vocabulary every store shares: the three lifecycle states, the
 * failures that the operations raise, results, and bytes.
 */
module FileSystem {

  /** A byte as the streams carry it, read as unsigned. */
  newtype byte = x: int | 0 <= x < 256

  datatype Option<T> = None | Some(value: T)

  /** The lifecycle of a store. */
  datatype OpenState = Uninitialized | Open | Closed

  /**
   * The failures raised by the modelled code, one constructor per message or
   * exception kind. Those up to HostFailure are file-system exceptions; the
   * next two are plain I/O exceptions of the streams; the last four are the
   * unchecked exceptions the code lets escape.
   */
  datatype FsError =
    | AlreadyClosed            // "File system has already been closed"
    | NotOpen                  // "File system is not open"
    | NoSuchDirectory          // "No such directory"
    | PathIsDirectory          // "Path is a directory" (size of a non-file)
    | NotAFile(path: string)   // "<path> is not a file"
    | NoSuchFile               // "No such file"
    | InvalidPath              // "Invalid path"
    | FolderExists             // "A folder with this name already exists"
    | Unauthorized             // "Unauthorized access"
    | FileNotFound             // "File not found"
    | FileNotFoundAt(path: string) // "File <path> not found"
    | AlreadyReified           // "File system is already reified"
    | InvalidLeaseToken        // "Invalid lease token"
    | IsReified                // "File system is reified"
    | ReifiedClosed            // "Reified file system is closed"
    | ReifiedReleased          // "Reified FS is released"
    | InvalidFlatFilename      // "Invalid flat filename"
    | HostFailure              // an I/O failure of the host, wrapped
    | ExceededMaxBytes         // "Exceeded maximum number of bytes to write"
    | CannotReadContents       // "Cannot read contents of input stream"
    | NullReference            // a null dereference
    | IllegalArgument          // malformed base64 input
    | NumberFormat             // a malformed hexadecimal pair
    | IndexOutOfBounds         // an offset and length outside the array

  /** The failures that catch blocks for file-system exceptions intercept. */
  predicate IsFileSystemException(e: FsError)
  {
    !(e.ExceededMaxBytes? || e.CannotReadContents? || e.NullReference? ||
      e.IllegalArgument? || e.NumberFormat? || e.IndexOutOfBounds?)
  }

  /** The outcome of a command that returns nothing. */
  datatype Outcome = Pass | Fail(error: FsError)

  /** The outcome of an operation that returns a value. */
  datatype Result<T> = Ok(value: T) | Err(error: FsError)

  /** Position of a state along the lifecycle. */
  function Stage(s: OpenState): nat
  {
    match s
    case Uninitialized => 0
    case Open => 1
    case Closed => 2
  }

  /**
   * A step allowed by the documented lifecycle: a store only moves forward,
   * from UNINITIALIZED to OPEN to CLOSED, and once CLOSED it stays CLOSED.
   */
  predicate Forward(before: OpenState, after: OpenState)
  {
    Stage(before) <= Stage(after)
  }
}
