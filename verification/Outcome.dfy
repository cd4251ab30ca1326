// What a parsing routine leaves behind.
module Outcome {
  datatype Option<+T> = None | Some(value: T)

  // Ok: the value read and the position after it.
  // Rejected: a null return with the error pointer at the given position.
  // Undefined: the C code steps over the terminator, writes past its buffer, or
  // depends on a field of sscanf that starts with no plain hex digit. Nothing is
  // said of what it does from there on.
  datatype Parsed<+T> = Ok(value: T, next: nat) | Rejected(at: nat) | Undefined
}
