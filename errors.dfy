/** The error types of src/error.rs. The payloads of the I/O variants
    (`std::io::Error`) are not modelled; `Display` is not modelled. */
module Errors {
  import opened Ir

  /** An error raised while running the IR. */
  datatype RuntimeError =
    | RuntimeIo        // `RuntimeError::IO`
    | PointerOverflow  // the data pointer would leave the tape

  /** Any error of the virtual machine: reading the source, compiling it, or
      running it. */
  datatype VMError =
    | Io                             // `VMError::IO`
    | Compile(cause: CompileError)
    | Runtime(fault: RuntimeError)
}
