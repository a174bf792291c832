/** Optional values, and the ways a call of the modelled code can end. */
module Outcomes {

  datatype Option<T> = None | Some(value: T)

  datatype Failure =
    | ValueError
    | AssertionError
    | RuntimeError
    | KeyError
    | IndexError
    | AttributeError
    | TimeoutError
    | ZeroDivisionError
    | FileNotFoundError
    | NotFound

  /** What a generator or a call produced before it ended, and the failure that ended it. */
  datatype Outcome<T> = Outcome(result: T, failure: Option<Failure>)

  function Done<T>(result: T): Outcome<T> { Outcome(result, None) }
}
