/** Optional values: JavaScript's `undefined`/`null` beside a present value. */
module Wrappers {

  datatype Option<+T> = None | Some(value: T) {

    /** The value, or `default` when absent (JavaScript's `x ?? default`). */
    function GetOr(default: T): T {
      match this
      case Some(v) => v
      case None => default
    }
  }

  /** JavaScript truthiness of an optional string: present and not `""`. */
  predicate Truthy(o: Option<string>) {
    o.Some? && o.value != []
  }

  /** `a || b || null` over optional strings: the first truthy one, else nothing. */
  function FirstTruthy(a: Option<string>, b: Option<string>): (r: Option<string>)
    ensures r.None? || Truthy(r)
    ensures Truthy(a) ==> r == a
    ensures !Truthy(a) ==> r == (if Truthy(b) then b else None)
  {
    if Truthy(a) then a else if Truthy(b) then b else None
  }
}
