/** Attributes read from objects returned by the GitLab API client. */
module Attributes {

  datatype Option<+T> = None | Some(value: T)

  /**
   * An attribute of an API object: absent from the object (getattr falls
   * back to its default), present with the value None, or present with a value.
   */
  datatype Attr<+T> = Missing | Null | Value(value: T)

  /** `getattr(obj, attr, None)`: a missing attribute and a None attribute both read as None. */
  function Lookup<T>(a: Attr<T>): (r: Option<T>)
    ensures r.Some? <==> a.Value?
    ensures r.Some? ==> r.value == a.value
  {
    if a.Value? then Some(a.value) else None
  }

  /** `bool(getattr(obj, attr, False))` for a boolean attribute. */
  function Flag(a: Attr<bool>): (b: bool)
    ensures b <==> a == Value(true)
  {
    a.Value? && a.value
  }
}
