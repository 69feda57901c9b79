/** Results of Python calls that may raise: a returned value or the message of the
    exception that propagated out of the call. */
module Outcomes {

  datatype Option<+T> = None | Some(value: T)

  /** `Returned(v)` when the Python call returns `v`, `Raised(m)` when it raises an
      exception whose `str()` is `m`. */
  datatype Outcome<+T> = Returned(value: T) | Raised(message: string)

  /** The `str()` of the AttributeError CPython raises for `None.<name>`. */
  function NoneAttribute(name: string): (m: string)
    ensures |m| > |name|
  {
    "'NoneType' object has no attribute '" + name + "'"
  }
}
