/** The one optional-value type the model needs: a JavaScript lookup that can
    come back `undefined` is an `Option` here. */
module Wrappers {
  datatype Option<+T> = None | Some(value: T)
}
