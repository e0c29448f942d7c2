/** An optional value: stands for a TypeScript optional field (`field?: T`)
    and for an `undefined` result. */
module Wrappers {

  datatype Option<+T> = None | Some(value: T)
}
