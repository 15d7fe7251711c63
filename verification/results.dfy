/** Option and Result values, standing in for Python's `None` returns and for the
    exceptions of the scraper that nothing catches. */
module Results {

  datatype Option<+T> = None | Some(value: T)

  /** The uncaught exceptions of the extraction. */
  datatype Error =
      /** `re.search('series:\[(.*)\]', ...)` found nothing and `.group(1)` was called on `None`. */
    | MissingSeriesBlock
      /** `datetime.date` got an argument beyond a C `int` and raised `OverflowError`,
          which the `except ValueError` around it does not catch. */
    | DateOverflow

  datatype Result<+T> = Success(value: T) | Failure(error: Error) {

    predicate IsFailure() {
      Failure?
    }

    function PropagateFailure<U>(): Result<U>
      requires Failure?
    {
      Failure(error)
    }

    function Extract(): T
      requires Success?
    {
      value
    }
  }
}
