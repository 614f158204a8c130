/** The optional value used for TypeScript's optional fields (`x?: T`) and nullable state. */
module Wrappers {

  datatype Option<+T> = None | Some(value: T)
}
