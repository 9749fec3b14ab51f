/** Small shared datatypes. */
module Common {

  /** The outcome of an operation that may fail; None stands for a checked
      access out of range, which ends the program. */
  datatype Option<T> = None | Some(value: T)
}
