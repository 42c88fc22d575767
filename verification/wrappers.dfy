/** Option stands for a nullable pointer (`T*`, `std::unique_ptr<T>`) of the source. */
module Wrappers {

  datatype Option<+T> = None | Some(value: T) {

    /** Applies `f` under `Some`, leaves `None` alone. */
    function Map<U>(f: T -> U): (r: Option<U>)
      ensures r.Some? <==> Some?
      ensures Some? ==> r.value == f(value)
    {
      match this
      case None => None
      case Some(v) => Some(f(v))
    }
  }
}
