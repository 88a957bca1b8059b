/** Results of the calculator's conversion steps.

    The Java code signals a malformed expression by returning `null`; other
    problems surface as exceptions (or, in one case, as a loop that never
    ends). The model keeps the two apart: `Malformed` is the `null` path that
    the driver prints as ERROR, `Fault` is everything else.
 */
module Outcomes {

  datatype Option<+T> = None | Some(value: T)

  /** What went wrong when the Java code would throw or hang. */
  datatype Fault =
    | NullDereference    // a method is called on a null string or array
    | IndexOutOfBounds   // array index or substring bounds out of range
    | StackOverflow      // the bracket stack's array is full
    | OutOfKeys          // the placeholder alphabet is used up
    | Diverges           // the bracket loop would repeat forever

  datatype Outcome<+T> = Ok(value: T) | Malformed | Fault(fault: Fault) {

    predicate IsFailure() {
      !Ok?
    }

    function PropagateFailure<U>(): (r: Outcome<U>)
      requires IsFailure()
      ensures Malformed? ==> r == Malformed
      ensures Fault? ==> r == Fault(fault)
    {
      match this
      case Malformed => Malformed
      case Fault(f) => Fault(f)
    }

    function Extract(): T
      requires Ok?
    {
      value
    }
  }
}
