/** Failure-carrying return values shared by every queue model.

    Python signals an empty container in two ways in this repository: some
    methods raise an exception (modelled by `Result`), others return `None`
    (modelled by `Option`). */
module Outcome {

  /** `None` stands for the Python `None` returned by the "quiet" variants. */
  datatype Option<+T> = None | Some(value: T)

  /** The exceptions an operation can end in. `IndexError` is raised
      explicitly by the guarded removals and peeks; `AttributeError` is what
      Python raises when an unguarded method reads a field of a `None`
      head. */
  datatype Error = IndexError | AttributeError

  /** Either a returned value or a raised exception. */
  datatype Result<+T> = Ok(value: T) | Err(error: Error)
}
