/** Results of the graph operations: a value, or the KeyError that a Python
    dictionary lookup raises when the key is missing. */
module Outcomes {

  datatype Option<+T> = None | Some(value: T)

  /** `Value(v)`: the call returned `v`; `KeyError(k)`: the call raised a
      KeyError for the (vertex) key `k`. */
  datatype Outcome<+T> = Value(value: T) | KeyError(key: int)
}
