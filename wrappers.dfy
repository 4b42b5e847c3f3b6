/**
 * Optional values and the exceptions of generate_readme.py, as values.
 *
 * Python signals failure by raising; every operation of the model that can
 * raise returns a `Result` instead, and the `Error` names which raise it is.
 */
module Wrappers {

  datatype Option<+T> = None | Some(value: T)

  datatype Result<+T> = Ok(value: T) | Err(error: Error)

  /** The exceptions the modelled code raises, one constructor per raise site. */
  datatype Error =
    | UnexpectedLine(line: string)        // RuntimeError in _get_plugin_urls
    | ChildNotFound(typeName: string)     // ValueError in _get_first_child_of_type
    | MissingValue                        // RuntimeError in _verify
    | MalformedTimestamp(raw: string)     // ValueError from strptime
    | PathTooShort(path: string)          // IndexError from parts[-2]
    | InvalidIpv6(url: string)            // ValueError from urlparse on a lone '[' or ']'
    | TableNotSerialized(name: string)    // RuntimeError in _get_tables_as_lines
    | UnknownTableNotImplemented          // NotImplementedError in _get_tables_as_lines
    | RequestFailed(url: string)          // an HTTP error raised by a fetch or a download

  /** `_verify`: a value that is present is returned unchanged; None raises. */
  function Verify<T>(value: Option<T>): (r: Result<T>)
    ensures r.Ok? <==> value.Some?
    ensures r.Ok? ==> r.value == value.value
    ensures r.Err? ==> r.error == MissingValue
  {
    match value
    case Some(v) => Ok(v)
    case None => Err(MissingValue)
  }
}
