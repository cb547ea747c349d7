/**
 * The optional value used throughout the model: `None` stands for JavaScript's `undefined`,
 * except in the string search, where it stands for the `-1` of a pattern that is absent.
 */
module Wrappers {

  datatype Option<+T> = None | Some(value: T)
}
