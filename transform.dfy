/** The value types shared by every transform representation. */
module Transforms {

  datatype Option<+T> = None | Some(value: T)

  /** Approximate equality of a scalar with zero: within the tolerance `eps`. */
  predicate ApproxZero(s: real, eps: real) {
    -eps < s < eps
  }
}
