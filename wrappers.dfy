/** Failure-carrying results shared by the whole model. */
module Wrappers {

  datatype Option<+T> = None | Some(value: T)

  /** The exceptions the scripts let escape (they end the run). */
  datatype Fault =
    | KeyError(key: string)        // dict lookup of a missing key
    | TypeError                    // subscripting, iterating or calling a method on the wrong kind of value
    | AttributeError(name: string) // calling a method the value does not have
    | DecodeError(path: string)    // a file that cannot be opened, read or parsed as JSON
    | UnorderableKeys              // sort keys that are all lists, which the model does not order

  datatype Result<+T> = Ok(value: T) | Err(fault: Fault)
}
