/** Small value wrappers shared by the other modules. */
module Wrappers {

  /** A key that may be missing from a record: `None` is the absent key. */
  datatype Option<+T> = None | Some(value: T)

  /** The Python exceptions the modelled code can raise on its inputs. */
  datatype Error =
    | IndexError   // indexing element 0 of an empty list
    | TypeError    // using `in` on `False`, or indexing a list with a string

  /** Either a returned value or a raised exception. */
  datatype Result<+T> = Ok(value: T) | Err(error: Error)
}
