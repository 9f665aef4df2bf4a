/** The values the client may lack: a console line at end of input, or a
    cluster client once the retry budget is spent. */
module Wrappers {

  /** `None` plays the role of C#'s `null`. */
  datatype Option<+T> = None | Some(value: T)
}
