/** Vocabulary shared by every subsystem: errors, results, optional values, bytes and sizes of sets (src/lib.rs). */
module Kernel {

  /** The errors of `KernelError` that the modelled code can return. */
  datatype Error =
    | OutOfMemory
    | InvalidAddress
    | PageNotMapped
    | PageAlreadyMapped
    | InvalidArgument
    | FileSystemNotFound
    | FileNotFound
    | IoError
    | AccessDenied

  datatype Option<+T> = None | Some(value: T)

  datatype Result<+T> = Ok(value: T) | Err(error: Error)

  datatype Unit = Unit

  type Byte = b: nat | b < 256

  const PAGE_SIZE: nat := 4096

  lemma SubsetSize<T>(a: set<T>, b: set<T>)
    requires a <= b
    ensures |a| <= |b|
  {
    assert b == a + (b - a);
  }
}
