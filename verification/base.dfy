/** Values shared by every part of the model: the errors that stop the
    construction of an enumeration's reflection data, the result and option
    types, and the (value, name) entry. */
module Base {

  /** Why construction fails. In the source each is a `throw` inside a
      `consteval` function, so each is a compile-time error. */
  datatype Error =
    | MoreEntries     // "Found more entries than expected"
    | LessEntries     // "Found less entries than expected"
    | ExpectedValue   // "Expected value after equals"
    | EmptyValue      // "Got empty string value"
    | BadSuffix       // "Only integer literals are supported as enum values" (suffix check)
    | NotNumeric      // "Only integer literals are supported as enum values" (first character)
    | UnknownBase     // "Unknown integer base"
    | NoDigits        // "0x"/"0b" with no digits: the multiplier loop bound wraps around
    | Overflow        // signed overflow of a 32/64-bit type: not a constant expression

  /** Failure-compatible result, so that `:-` propagates the first error. */
  datatype Result<+T> = Success(value: T) | Failure(error: Error) {

    predicate IsFailure() {
      Failure?
    }

    function PropagateFailure<U>(): Result<U>
      requires Failure?
    {
      Failure(error)
    }

    function Extract(): T
      requires Success?
    {
      value
    }
  }

  /** `std::optional`: what the lookups return. */
  datatype Option<+T> = None | Some(value: T)

  /** One enumerator: its underlying value and its identifier. */
  datatype Entry = Entry(value: int, name: string)
}
