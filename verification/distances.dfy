/**
 * Distances of the Distance Vector engine: an integer cost or "infinity"
 * (the simulator's `float('inf')`). Every cost in the simulator is an
 * integer, so the extended integers stand in for its floats.
 */
module Distances {

  datatype Dist = Fin(n: int) | Inf

  /** Addition that saturates at infinity, as `inf + x == inf` does. */
  function Add(a: Dist, b: Dist): (r: Dist)
    ensures r == Inf <==> a == Inf || b == Inf
    ensures a.Fin? && b.Fin? ==> r.n == a.n + b.n
  {
    if a.Inf? || b.Inf? then Inf else Fin(a.n + b.n)
  }

  /** `a <= b`, with infinity above every finite cost. */
  predicate Le(a: Dist, b: Dist)
  {
    b.Inf? || (a.Fin? && a.n <= b.n)
  }

  /**
   * `a < b`, with infinity above every finite cost; `inf < inf` is false,
   * as it is for floats.
   */
  predicate Less(a: Dist, b: Dist)
    ensures Less(a, b) <==> Le(a, b) && a != b
  {
    a.Fin? && (b.Inf? || a.n < b.n)
  }

  /** A finite, non-negative distance. */
  predicate NonNegative(d: Dist)
  {
    d.Inf? || d.n >= 0
  }

  /** `Less` is the strict part of the total order `Le`. */
  lemma LessIsNotLe(a: Dist, b: Dist)
    ensures Less(a, b) <==> !Le(b, a)
    ensures Le(a, b) || Le(b, a)
    ensures Le(a, b) && Le(b, a) ==> a == b
  {
  }
}
