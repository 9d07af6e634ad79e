/** The optional value used for "no such entry" and "no parse" results. */
module Wrappers {

  datatype Option<+T> = None | Some(value: T)
}
