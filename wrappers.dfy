/** Result wrappers shared by the model: Ruby's nil and Ruby's escaping exceptions. */
module Wrappers {

  /** Ruby `nil` versus a present value. */
  datatype Option<+T> = None | Some(value: T)

  /** The outcome of a Ruby expression: it either returns a value or raises an
      exception that nothing around it rescues. */
  datatype Attempt<+T> = Returned(value: T) | Raised

  /** Ruby's `a || b` on an expression that may be nil or raise: when `a`
      raises, `b` is never evaluated; when `a` is nil, the result is `b`. */
  function OrElse<T>(a: Attempt<Option<T>>, b: Attempt<Option<T>>): (r: Attempt<Option<T>>)
    ensures a == Raised ==> r == Raised
    ensures a.Returned? && a.value.Some? ==> r == a
    ensures a == Returned(None) ==> r == b
  {
    match a
    case Raised => Raised
    case Returned(None) => b
    case Returned(Some(_)) => a
  }
}
