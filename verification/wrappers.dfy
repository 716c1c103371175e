/** The optional value used for the request attribute, the resolved target and the thrown error. */
module Wrappers {

  /** `None` stands for Java's `null`: an absent request attribute, an unknown target,
      or a dispatch that returned normally. */
  datatype Option<+T> = None | Some(value: T)
}
