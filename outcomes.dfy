/** Optional values and the exceptions the extraction code can raise.
    A Python call either returns a value or raises; `Outcome` models both. */
module Outcomes {

  datatype Option<+T> = None | Some(value: T)

  /** The Python exception classes that can arise in the extraction core. */
  datatype PyError =
    | JSONDecodeError     // json.loads on text that is not JSON
    | KeyError            // d[k] on a dict without k
    | IndexError          // xs[0] on an empty list
    | TypeError           // an operand of the wrong type (`x in 5`, `"s"["k"]`, `bool in str`)
    | AttributeError      // a method the value does not have (`[].get`, `5 .strip`)
    | UnboundLocalError   // a local variable read before it was assigned
    | UnicodeDecodeError  // json.loads on bytes that are not UTF-8

  /** The result of running Python code: a value, or an exception that escaped. */
  datatype Outcome<+T> = Returned(value: T) | Raised(error: PyError) {
    predicate IsFailure() { Raised? }

    function PropagateFailure<U>(): Outcome<U>
      requires Raised?
    {
      Raised(error)
    }

    function Extract(): T
      requires Returned?
    {
      value
    }
  }
}
