/** Failure-carrying values shared by every module of the model.
    The library signals failures with Java exceptions; each kind the model
    can raise is one constructor of Fault. */
module Outcomes {

  /** Java's nullable reference: None stands for null. */
  datatype Option<+T> = None | Some(value: T)

  /** The exceptions the modelled code can end in. */
  datatype Fault =
    | IndexOutOfBound          // RuntimeException("index out of bound") thrown by Array
    | ArrayIndexOutOfBounds    // the JVM's bounds check on a raw array access
    | NullPointer              // a dereference of null
    | NegativeArraySize        // allocating an array with a negative length
    | StackOverflow            // recursion deeper than the call stack allows

  /** Either a value or the exception the call ended in. */
  datatype Result<+T> = Ok(value: T) | Err(fault: Fault)

  /** Outcome of a call that returns nothing (Java `void`). */
  datatype Status = Done | Failed(fault: Fault)
}
