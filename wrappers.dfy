/** Option type shared by the whole model: a nullable database column or a
    form field that may be absent. */
module Wrappers {

  datatype Option<+T> = None | Some(value: T) {

    /** The value, or a default when there is none. */
    function GetOr(default: T): T {
      match this
      case Some(v) => v
      case None => default
    }
  }

  /** Python truthiness of a nullable integer such as a bid value: None
      and 0 are false. */
  predicate Truthy(o: Option<int>) {
    o.Some? && o.value != 0
  }
}
