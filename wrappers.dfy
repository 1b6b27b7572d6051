/** The optional value shared by the modules of this model: `None` stands for
    JavaScript's `undefined` (a missing key, a missing field) or for an
    operation that threw. */
module Wrappers {
  datatype Option<+T> = None | Some(value: T)
}
