/**
  Search values: the extended reals the searches compare and combine.

  The source uses Python floats with `-float('inf')` and `float('inf')` as
  sentinels for "no child seen yet" and as the catastrophe value of the
  evaluation heuristic.  Finite values are modelled by exact `real`s; NaN and
  rounding are not modelled.
 */
module Scores {

  datatype Score = NegInf | Fin(r: real) | PosInf

  /** The usual order of the extended reals. */
  predicate Le(x: Score, y: Score) {
    x.NegInf? || y.PosInf? || (x.Fin? && y.Fin? && x.r <= y.r)
  }

  /** Strict order, as Python's `x < y` on these values. */
  predicate Lt(x: Score, y: Score) {
    !Le(y, x)
  }

  /** Python's `max(x, y)`: keeps `x` unless `y` is strictly greater. */
  function Max(x: Score, y: Score): (m: Score)
    ensures Le(x, m) && Le(y, m)
    ensures m == x || m == y
  {
    if Lt(x, y) then y else x
  }

  /** Python's `min(x, y)`: keeps `x` unless `y` is strictly smaller. */
  function Min(x: Score, y: Score): (m: Score)
    ensures Le(m, x) && Le(m, y)
    ensures m == x || m == y
  {
    if Lt(y, x) then y else x
  }

  /** Python's `x + y` on values of which neither is `+inf`: `-inf` absorbs. */
  function Add(x: Score, y: Score): (z: Score)
    requires !x.PosInf? && !y.PosInf?
    ensures !z.PosInf?
    ensures z.NegInf? <==> x.NegInf? || y.NegInf?
    ensures x.Fin? && y.Fin? ==> z == Fin(x.r + y.r)
  {
    match (x, y)
    case (Fin(a), Fin(b)) => Fin(a + b)
    case _ => NegInf
  }

  /** Python's `x / n` for a positive count `n`. */
  function DivBy(x: Score, n: nat): (z: Score)
    requires n > 0
    ensures z.NegInf? <==> x.NegInf?
    ensures z.PosInf? <==> x.PosInf?
    ensures x.Fin? ==> z == Fin(x.r / n as real)
  {
    match x
    case Fin(a) => Fin(a / n as real)
    case _ => x
  }

  lemma LeTransitive(x: Score, y: Score, z: Score)
    requires Le(x, y) && Le(y, z)
    ensures Le(x, z)
  {
  }

  lemma LeAntisymmetric(x: Score, y: Score)
    requires Le(x, y) && Le(y, x)
    ensures x == y
  {
  }
}
