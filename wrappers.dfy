/** Option and Result, standing for Java's null and for thrown exceptions. */
module Wrappers {

  datatype Option<+T> = None | Some(value: T)

  /** The exceptions the modelled code throws, by Java class name. */
  datatype Fault =
    | IllegalState        // java.lang.IllegalStateException
    | NoSuchElement       // java.util.NoSuchElementException
    | ClassCast           // java.lang.ClassCastException
    | NullPointer         // java.lang.NullPointerException
    | IndexOutOfBounds    // java.lang.ArrayIndexOutOfBoundsException

  datatype Result<+T> = Ok(value: T) | Err(fault: Fault)

  datatype Outcome = Pass | Fail(fault: Fault)
}
