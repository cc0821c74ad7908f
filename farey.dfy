/**
 * The library's second, smaller fraction type, used by the classic Farey
 * example: constructor, mediant, sum and product, again never reduced.
 * It is a separate type from `Fractions.Fraction`; the lemmas at the end
 * show that the two agree operation by operation.
 */
module Farey {
  import opened Rings
  import Fractions

  datatype Fraction<T> = Fraction(numerator: T, denominator: T)

  /** Stores both components as given. */
  function New<T>(numerator: T, denominator: T): (r: Fraction<T>)
    ensures r.numerator == numerator && r.denominator == denominator
  {
    Fraction(numerator, denominator)
  }

  /** Conversion from a `(numerator, denominator)` pair. */
  function FromPair<T>(t: (T, T)): (r: Fraction<T>)
    ensures r == New(t.0, t.1)
  {
    New(t.0, t.1)
  }

  /** The Farey mediant `(p + r) / (q + s)`. */
  function Mediant<T>(ring: Ring<T>, x: Fraction<T>, y: Fraction<T>): Fraction<T> {
    New(ring.add(x.numerator, y.numerator), ring.add(x.denominator, y.denominator))
  }

  /** Cross-multiplied sum `(a·d + b·c) / (b·d)`. */
  function Add<T>(ring: Ring<T>, x: Fraction<T>, y: Fraction<T>): Fraction<T> {
    New(ring.add(ring.mul(x.numerator, y.denominator), ring.mul(x.denominator, y.numerator)),
        ring.mul(x.denominator, y.denominator))
  }

  /** Component-wise product `(a·c) / (b·d)`. */
  function Mul<T>(ring: Ring<T>, x: Fraction<T>, y: Fraction<T>): Fraction<T> {
    New(ring.mul(x.numerator, y.numerator), ring.mul(x.denominator, y.denominator))
  }

  /** The same pair seen as a general fraction. */
  function ToGeneral<T>(x: Fraction<T>): (r: Fractions.Fraction<T>)
    ensures r.numerator == x.numerator && r.denominator == x.denominator
  {
    Fractions.New(x.numerator, x.denominator)
  }

  /** Each operation agrees with the general fraction type's, for every base type. */
  lemma AgreesWithGeneral<T>(ring: Ring<T>, x: Fraction<T>, y: Fraction<T>)
    ensures ToGeneral(Mediant(ring, x, y)) == Fractions.Mediant(ring, ToGeneral(x), ToGeneral(y))
    ensures ToGeneral(Add(ring, x, y)) == Fractions.Add(ring, ToGeneral(x), ToGeneral(y))
    ensures ToGeneral(Mul(ring, x, y)) == Fractions.Mul(ring, ToGeneral(x), ToGeneral(y))
  {
  }

  /** Over the integers the operations have the components of their textbook formulas. */
  lemma IntComponents(x: Fraction<int>, y: Fraction<int>)
    ensures Mediant(IntRing, x, y) == New(x.numerator + y.numerator, x.denominator + y.denominator)
    ensures Add(IntRing, x, y) == New(x.numerator * y.denominator + x.denominator * y.numerator,
                                      x.denominator * y.denominator)
    ensures Mul(IntRing, x, y) == New(x.numerator * y.numerator, x.denominator * y.denominator)
  {
    AgreesWithGeneral(IntRing, x, y);
    Fractions.IntComponents(ToGeneral(x), ToGeneral(y));
  }

  /** Equality is structural: `1/2` and `2/4` differ. */
  lemma NoReduction()
    ensures New(1, 2) != New(2, 4)
    ensures Mul(IntRing, New(1, 2), New(2, 2)) == New(2, 4)
  {
    IntComponents(New(1, 2), New(2, 2));
  }

  /** The library's own test vectors. */
  lemma IntTestVectors()
    ensures FromPair((1, 2)) == New(1, 2)
    ensures Add(IntRing, FromPair((1, 2)), FromPair((1, 3))) == FromPair((5, 6))
    ensures Mul(IntRing, FromPair((2, 3)), FromPair((5, 7))) == FromPair((10, 21))
    ensures Mediant(IntRing, FromPair((1, 2)), FromPair((1, 3))) == FromPair((2, 5))
  {
    IntComponents(New(1, 2), New(1, 3));
    IntComponents(New(2, 3), New(5, 7));
  }
}
