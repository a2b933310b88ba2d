/** Optional values and the error outcomes of the table engines.
    Each `Error` variant stands for the exception the Python code raises. */
module Outcomes {

  datatype Option<+T> = None | Some(value: T)

  datatype Error =
    | KeyError(key: string)           // a dict lookup on an absent key
    | IndexError                      // a list index out of range
    | UnknownColumn(name: string)     // ValueError from `list.index` on a column name
    | ZeroSliceStep                   // ValueError: slice step cannot be zero
    | UnsupportedDataset(name: string) // ValueError raised by `load_dataset`

  datatype Result<+T> = Ok(value: T) | Err(error: Error)
}
