/** Failure-carrying values standing in for the exceptions the Python code raises. */
module Wrappers {

  datatype Option<+T> = None | Some(value: T)

  /** The exception kinds that the modelled code raises or lets escape. */
  datatype Error =
    | ValueError
    | KeyError
    | TypeError
    | ZeroDivisionError
    | OverflowError                   // a date or time delta beyond the range of `datetime`
    | AttributeError
    | ConfigError(key: string)        // ConfigParser.Error raised by ProcessConfiguration.read
    | ExportError                     // pycstbox.export.ExportError
    | DataWareHouseError(name: string) // duplicated variable name
    | MetadataError                   // the device metadata lacks an entry the filter looks up

  datatype Result<+T> = Ok(value: T) | Err(error: Error)

  datatype Outcome = Pass | Fail(error: Error)
}
