/** A value that may be missing: `std::optional` in the C++ core, `undefined` in TypeScript. */
module Wrappers {
  datatype Option<+T> = None | Some(value: T)
}
