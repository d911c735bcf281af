/** The exceptions of the rule engine, as values. A Java method that may throw
    becomes a function returning `Result`; the thrown exception becomes `Fail`. */
module Errors {

  /** The exception kinds the core raises or lets through. */
  datatype Error =
    | UnknownValue            // an operand is Null where a definite answer is needed
    | UnsupportedOperation    // no semantics for this operator/operand combination
    | NotInTheDomain          // a value outside its attribute's type domain
    | AttributeNotRegistered  // a write by name to an unregistered attribute
    | IndexOutOfBounds        // a list index outside the list
    | NoSuchElement           // first/last element of an empty list
    | NullPointer             // a dereference of a missing entry
    | ClassCast               // an unchecked cast to the wrong variant
    | IllegalArgument         // reflective failures a decision swallows; a refused window period
    | Security
    | ModelBuilding           // a model that does not validate

  datatype Result<+T> = Ok(value: T) | Fail(error: Error) {
    predicate IsFailure() { Fail? }

    function PropagateFailure<U>(): Result<U>
      requires Fail?
    {
      Fail(error)
    }

    function Extract(): T
      requires Ok?
    {
      value
    }
  }

  datatype Option<+T> = None | Some(value: T)
}
