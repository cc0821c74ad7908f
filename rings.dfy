/**
 * The arithmetic a fraction needs from its base type: addition,
 * multiplication and negation, passed around as a dictionary of
 * function values in place of the trait bounds on the library's
 * generic `Fraction<T>`.
 */
module Rings {
  import GaussianInts

  datatype Ring<!T> = Ring(add: (T, T) -> T, mul: (T, T) -> T, neg: T -> T)

  /** The machine integers of the examples, taken as unbounded integers. */
  const IntRing: Ring<int> := Ring((a: int, b: int) => a + b, (a: int, b: int) => a * b, (a: int) => -a)

  /** The Gaussian integers with their component-wise sum and complex product. */
  const GaussianRing: Ring<GaussianInts.Gaussian> :=
    Ring(GaussianInts.Add, GaussianInts.Mul, GaussianInts.Neg)

  /** The dictionaries compute the operations of their base types. */
  lemma IntRingOps(a: int, b: int)
    ensures IntRing.add(a, b) == a + b && IntRing.mul(a, b) == a * b && IntRing.neg(a) == -a
  {
  }

  lemma GaussianRingOps(x: GaussianInts.Gaussian, y: GaussianInts.Gaussian)
    ensures GaussianRing.add(x, y) == GaussianInts.Add(x, y)
    ensures GaussianRing.mul(x, y) == GaussianInts.Mul(x, y)
    ensures GaussianRing.neg(x) == GaussianInts.Neg(x)
  {
  }
}
