/** The Option datatype shared by the allocator and the scheduler models. */
module Wrappers {

  /** A value that may be absent; stands for a nullable pointer. */
  datatype Option<+T> = None | Some(value: T)
}
