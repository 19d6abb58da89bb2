/** Failure-carrying values: every operation of the model that can raise returns a Result. */
module Wrappers {

  /** Python's `Optional[T]`: `None` or a present value. */
  datatype Option<+T> = None | Some(value: T)

  /** The outcome of an operation that either returns a value or raises an error. */
  datatype Result<+T, +E> = Success(value: T) | Failure(error: E) {

    predicate IsFailure() {
      Failure?
    }

    function PropagateFailure<U>(): Result<U, E>
      requires Failure?
    {
      Failure(error)
    }

    function Extract(): T
      requires Success?
    {
      value
    }
  }
}

/** The exceptions the modelled code raises or lets propagate. */
module Failures {

  datatype Error =
    | TypeError                         // a locator of the wrong dialect, or iterating over None
    | IndexError                        // indexing past the end of a str or list
    | Timeout(message: string)          // selenium's TimeoutException
    | StaleElement                      // selenium's StaleElementReferenceException
    | NotImplemented                    // NotImplementedError
    | ElementNotInteractable            // selenium's ElementNotInteractableException
    | NoSuchElement                     // selenium's NoSuchElementException
    | AssertionFailed                   // a failed IAAssert check
    | DriverError(name: string)         // any other exception raised by the driver

  /** The exceptions the tree expansion treats as transient (TimeoutException, StaleElementReferenceException). */
  predicate Transient(e: Error) {
    e.Timeout? || e.StaleElement?
  }
}
