/** What can go wrong while one side of an equation is evaluated.  The source
    signals each of these with a Java exception or an `assert`; here they are
    values, so that one malformed side cannot go unnoticed. */
module Outcomes {

  datatype Failure =
    | BadToken                  // `Integer.valueOf` rejects an operand text such as `x2`
    | UnknownOperator(op: char) // the priority table has no entry for this character
    | EmptyStack                // a pop from an empty operand or operator stack
    | DivisionByZero            // a `/` whose divisor has constant part 0
    | Unreduced                 // the reduction did not end with one operand and no operator

  datatype Result<T> = Ok(value: T) | Err(failure: Failure) {

    predicate IsFailure() {
      Err?
    }

    function PropagateFailure<U>(): Result<U>
      requires Err?
    {
      Err(failure)
    }

    function Extract(): T
      requires Ok?
    {
      value
    }
  }
}
