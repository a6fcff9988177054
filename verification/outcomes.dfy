/** The exceptions the transforms can raise, as values. */
module Outcomes {

  /** Runtime faults of the Java code that the model keeps:
      an array index outside the array (`ArrayIndexOutOfBoundsException`),
      an integer division by zero (`ArithmeticException`), and a text field
      that does not hold an integer (`NumberFormatException`). */
  datatype Fault = IndexOutOfBounds | DivisionByZero | NumberFormat

  datatype Result<T> = Ok(value: T) | Err(fault: Fault)

  /** An optional value: `None` where the source would have thrown before
      producing one. */
  datatype Option<T> = None | Some(value: T)
}
