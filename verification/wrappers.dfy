/** Optional values and the truthiness rule the request handlers apply to them.

    A JSON field or query argument that is absent and one that is JSON `null`
    both arrive as `None`; an empty string arrives as `Some("")`. Wherever the
    handlers test a value with a bare `if x` (or `all([...])`), both `None` and
    the empty string count as "not given". */
module Wrappers {

  datatype Option<+T> = None | Some(value: T)

  /** The truth value of an optional string field: given and non-empty. */
  predicate Present(o: Option<string>) {
    o.Some? && o.value != ""
  }

  /** Truthiness of a list of fields, the way `all([...])` reads it. */
  predicate AllPresent(fields: seq<Option<string>>)
    ensures AllPresent(fields) <==> forall i :: 0 <= i < |fields| ==> Present(fields[i])
  {
    if fields == [] then true else Present(fields[0]) && AllPresent(fields[1..])
  }
}
