/** The optional value used for Java's nullable references (parent links, colours, lookups). */
module Wrappers {
  datatype Option<+T> = None | Some(value: T)
}
