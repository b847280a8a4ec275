/** The outcome of an operation whose precondition is checked at run time.
    The engine signals every such failure (a bad index, a zero determinant,
    a zero norm, a wrong element or pixel count) with the same
    `precondition_violation` exception; `PreconditionViolation` stands for it. */
module Checked {

  datatype Checked<+T> = Ok(value: T) | PreconditionViolation
}
