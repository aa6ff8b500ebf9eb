/** Failure-carrying values shared by every module of the model. */
module Wrappers {

  /** Python's `None` or a present value. */
  datatype Option<+T> = None | Some(value: T)

  /** The outcome of a call into a collaborator that may raise an exception
      (the remote store, the file system, a parser). */
  datatype Call<+T> = Raises | Returns(value: T)
}
