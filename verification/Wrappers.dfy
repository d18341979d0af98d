/** Result types shared by the models. */
module Wrappers {

  datatype Option<+T> = None | Some(value: T)

  /** The NTSTATUS values the modelled code returns. */
  datatype NtStatus =
    | Success
    | InvalidParameter
    | InvalidParameter1
    | InvalidParameter3
    | InvalidParameter5
    | InvalidImageFormat
    | MachineTypeMismatch
    | NotSupported
    | NotFound
    | NoMemory
    | InsufficientResources
    | DllInitFailed
    | TlsSkipped
    | AccessViolation
    | InvalidHandle
    | Unsuccessful
    | KernelRefused
}
