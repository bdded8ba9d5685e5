/** The failure shapes of the scanner code: Python's `Optional` lookups and the
    exceptions (`IndexError`, `KeyError`, `ValueError`) its list, dict and
    array operations raise. */
module Outcomes {

  /** A value that may be missing, as returned by a search. */
  datatype Option<+T> = None | Some(value: T)

  /** The Python exceptions the modelled operations can raise. */
  datatype PyError =
    | IndexError   // list or array index outside the sequence
    | KeyError     // dict lookup or `pop` of a missing key
    | ValueError   // `list.index` of an element that is not in the list

  /** Either the value an operation returns or the exception it raises. */
  datatype Result<+T> = Ok(value: T) | Err(error: PyError)
}
