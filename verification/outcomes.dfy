/**
  Optional values, results, and the exceptions the nested dictionary can raise.
 */
module Outcomes {

  datatype Option<+T> = None | Some(value: T)

  /** The Python exceptions that surface from construction and item access. */
  datatype Error =
    | ConfigError   // the bare `Exception` raised by `nested_dict.__init__`
    | TypeError     // `defaultdict` refusing a default factory that is not callable
    | KeyError      // a missing key under a dictionary whose default factory is None
    | LeafAccess    // indexing into a leaf value: whatever the leaf object raises

  datatype Result<+T> = Ok(value: T) | Err(error: Error)
}
