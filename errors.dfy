/** The nine error codes of TinyFS_errno.h and the result types that carry them. */
module Errors {

  datatype Error =
    | OpenFailure        // -1: store could not be opened, or a second mount was attempted
    | ReadError          // -2
    | WriteError         // -3
    | ClosedDiskFailure  // -4: block access on a store that has been closed
    | CorruptFs          // -5: the mount-time checker rejected the store
    | FileNotFound       // -6
    | RootDirectoryFull  // -7: no directory slot, table entry or free block left
    | DiskCloseFailure   // -8: unmount with nothing mounted
    | SeekError          // -9

  /** The integer the C code returns for each error. */
  function Code(e: Error): (c: int)
    ensures -9 <= c <= -1
  {
    match e
    case OpenFailure => -1
    case ReadError => -2
    case WriteError => -3
    case ClosedDiskFailure => -4
    case CorruptFs => -5
    case FileNotFound => -6
    case RootDirectoryFull => -7
    case DiskCloseFailure => -8
    case SeekError => -9
  }

  /** No two errors share a code, so a caller can tell them apart by the integer alone. */
  lemma CodeInjective(e1: Error, e2: Error)
    requires Code(e1) == Code(e2)
    ensures e1 == e2
  {
  }

  /** A value, or the error code that replaced it. */
  datatype Result<T> = Ok(value: T) | Err(error: Error)

  /** Success (the C code's 0), or an error code. */
  datatype Outcome = Pass | Fail(error: Error)

  datatype Option<T> = None | Some(value: T)
}
