/** The optional value the TypeScript source expresses with `undefined`/`null`. */
module Wrappers {

  datatype Option<+T> = None | Some(value: T)
}
