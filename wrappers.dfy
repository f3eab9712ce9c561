/** Option, used for the values the C# program represents with null or with an exception. */
module Wrappers {
  datatype Option<+T> = None | Some(value: T)
}
