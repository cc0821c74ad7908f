/**
 * The library's general fraction type: a numerator/denominator pair over
 * any base type with addition, multiplication and negation. Nothing is
 * ever reduced and a zero denominator is not rejected, so equality is
 * equality of the stored pair.
 */
module Fractions {
  import opened Wrappers
  import opened Text
  import opened Rings
  import GaussianInts

  datatype Fraction<T> = Fraction(numerator: T, denominator: T)

  /** Stores both components as given. */
  function New<T>(numerator: T, denominator: T): (r: Fraction<T>)
    ensures r.numerator == numerator && r.denominator == denominator
  {
    Fraction(numerator, denominator)
  }

  /** Conversion from a `(numerator, denominator)` pair. */
  function FromPair<T>(t: (T, T)): (r: Fraction<T>)
    ensures r == New(t.0, t.1)
  {
    New(t.0, t.1)
  }

  /** The Farey mediant `(p + r) / (q + s)` of `p/q` and `r/s`. */
  function Mediant<T>(ring: Ring<T>, x: Fraction<T>, y: Fraction<T>): Fraction<T> {
    New(ring.add(x.numerator, y.numerator), ring.add(x.denominator, y.denominator))
  }

  /** Cross-multiplied sum `(a·d + b·c) / (b·d)`. */
  function Add<T>(ring: Ring<T>, x: Fraction<T>, y: Fraction<T>): Fraction<T> {
    New(ring.add(ring.mul(x.numerator, y.denominator), ring.mul(x.denominator, y.numerator)),
        ring.mul(x.denominator, y.denominator))
  }

  /** Component-wise product `(a·c) / (b·d)`. */
  function Mul<T>(ring: Ring<T>, x: Fraction<T>, y: Fraction<T>): Fraction<T> {
    New(ring.mul(x.numerator, y.numerator), ring.mul(x.denominator, y.denominator))
  }

  /** Negates the numerator only. */
  function Neg<T>(ring: Ring<T>, x: Fraction<T>): Fraction<T> {
    New(ring.neg(x.numerator), x.denominator)
  }

  /** Subtraction is addition of the negated right operand. */
  function Sub<T>(ring: Ring<T>, x: Fraction<T>, y: Fraction<T>): Fraction<T> {
    Add(ring, x, Neg(ring, y))
  }

  /** `"<numerator>/<denominator>"`, each part rendered by the base type. */
  function Show<T>(show: T -> string, x: Fraction<T>): string {
    show(x.numerator) + "/" + show(x.denominator)
  }

  /** Reads back what `Show` writes: both parts around the first slash. */
  function Parse<T>(parse: string -> Option<T>, s: string): Option<Fraction<T>> {
    match SplitAt(s, '/')
    case None => None
    case Some((n, d)) =>
      match (parse(n), parse(d))
      case (Some(numerator), Some(denominator)) => Some(New(numerator, denominator))
      case _ => None
  }

  // ----- Integer fractions and their rational values -----

  /** The rational number an integer fraction with a non-zero denominator stands for. */
  ghost function Value(x: Fraction<int>): real
    requires x.denominator != 0
  {
    x.numerator as real / x.denominator as real
  }

  lemma ProductNonZero(b: int, d: int)
    requires b != 0 && d != 0
    ensures b * d != 0
  {
  }

  /** Over the integers the operations have the components of their textbook formulas. */
  lemma IntComponents(x: Fraction<int>, y: Fraction<int>)
    ensures Mediant(IntRing, x, y) == New(x.numerator + y.numerator, x.denominator + y.denominator)
    ensures Add(IntRing, x, y) == New(x.numerator * y.denominator + x.denominator * y.numerator,
                                      x.denominator * y.denominator)
    ensures Mul(IntRing, x, y) == New(x.numerator * y.numerator, x.denominator * y.denominator)
    ensures Neg(IntRing, x) == New(-x.numerator, x.denominator)
    ensures Sub(IntRing, x, y) == New(x.numerator * y.denominator - x.denominator * y.numerator,
                                      x.denominator * y.denominator)
  {
    IntRingOps(x.numerator, y.denominator);
    IntRingOps(x.denominator, y.numerator);
    IntRingOps(x.denominator, -y.numerator);
    IntRingOps(x.numerator, y.numerator);
    IntRingOps(x.denominator, y.denominator);
    IntRingOps(x.numerator * y.denominator, x.denominator * y.numerator);
    IntRingOps(x.numerator * y.denominator, x.denominator * -y.numerator);
    IntRingOps(x.denominator, y.denominator);
  }

  /** `Value(a/b) == Value(c/d)` exactly when `a·d == c·b`. */
  lemma ValueEqual(x: Fraction<int>, y: Fraction<int>)
    requires x.denominator != 0 && y.denominator != 0
    ensures Value(x) == Value(y) <==> x.numerator * y.denominator == y.numerator * x.denominator
  {
    var a, b, c, d := x.numerator as real, x.denominator as real, y.numerator as real, y.denominator as real;
    assert Value(x) * b == a;
    assert Value(y) * d == c;
    assert (x.numerator * y.denominator) as real == a * d;
    assert (y.numerator * x.denominator) as real == c * b;
    if Value(x) == Value(y) {
      assert a * d == Value(x) * b * d == Value(y) * d * b == c * b;
    }
  }

  /** For positive denominators, `Value(a/b) < Value(c/d)` exactly when `a·d < c·b`. */
  lemma ValueLess(x: Fraction<int>, y: Fraction<int>)
    requires x.denominator > 0 && y.denominator > 0
    ensures Value(x) < Value(y) <==> x.numerator * y.denominator < y.numerator * x.denominator
  {
    var a, b, c, d := x.numerator as real, x.denominator as real, y.numerator as real, y.denominator as real;
    assert Value(x) * b == a;
    assert Value(y) * d == c;
    assert (x.numerator * y.denominator) as real == a * d;
    assert (y.numerator * x.denominator) as real == c * b;
    assert b * d > 0.0;
    assert a * d == Value(x) * (b * d);
    assert c * b == Value(y) * (b * d);
  }

  /** The sum of fractions has the sum of their values. */
  lemma AddValue(x: Fraction<int>, y: Fraction<int>)
    requires x.denominator != 0 && y.denominator != 0
    ensures Add(IntRing, x, y).denominator != 0
    ensures Value(Add(IntRing, x, y)) == Value(x) + Value(y)
  {
    IntComponents(x, y);
    ProductNonZero(x.denominator, y.denominator);
    var a, b, c, d := x.numerator as real, x.denominator as real, y.numerator as real, y.denominator as real;
    var s := Add(IntRing, x, y);
    assert s.numerator as real == a * d + b * c;
    assert s.denominator as real == b * d;
    assert Value(x) * b == a && Value(y) * d == c;
    assert (Value(x) + Value(y)) * (b * d) == a * d + b * c;
  }

  /** The product of fractions has the product of their values. */
  lemma MulValue(x: Fraction<int>, y: Fraction<int>)
    requires x.denominator != 0 && y.denominator != 0
    ensures Mul(IntRing, x, y).denominator != 0
    ensures Value(Mul(IntRing, x, y)) == Value(x) * Value(y)
  {
    IntComponents(x, y);
    ProductNonZero(x.denominator, y.denominator);
    var a, b, c, d := x.numerator as real, x.denominator as real, y.numerator as real, y.denominator as real;
    var p := Mul(IntRing, x, y);
    assert p.numerator as real == a * c;
    assert p.denominator as real == b * d;
    assert Value(x) * b == a && Value(y) * d == c;
    assert (Value(x) * Value(y)) * (b * d) == a * c;
  }

  /** Negation keeps the denominator, negates the value and undoes itself. */
  lemma NegValue(x: Fraction<int>)
    requires x.denominator != 0
    ensures Neg(IntRing, x).denominator == x.denominator
    ensures Value(Neg(IntRing, x)) == -Value(x)
    ensures Neg(IntRing, Neg(IntRing, x)) == x
  {
    IntComponents(x, x);
    IntComponents(Neg(IntRing, x), x);
  }

  /** The difference of fractions has the difference of their values. */
  lemma SubValue(x: Fraction<int>, y: Fraction<int>)
    requires x.denominator != 0 && y.denominator != 0
    ensures Sub(IntRing, x, y).denominator != 0
    ensures Value(Sub(IntRing, x, y)) == Value(x) - Value(y)
  {
    NegValue(y);
    AddValue(x, Neg(IntRing, y));
  }

  /** With positive denominators the mediant lies strictly between distinct fractions. */
  lemma MediantBetween(x: Fraction<int>, y: Fraction<int>)
    requires x.denominator > 0 && y.denominator > 0
    requires Value(x) < Value(y)
    ensures Mediant(IntRing, x, y).denominator > 0
    ensures Value(x) < Value(Mediant(IntRing, x, y)) < Value(y)
  {
    IntComponents(x, y);
    var m := Mediant(IntRing, x, y);
    var p, q, r, s := x.numerator, x.denominator, y.numerator, y.denominator;
    ValueLess(x, y);
    ValueLess(x, m);
    ValueLess(m, y);
    assert p * (q + s) == p * q + p * s;
    assert (p + r) * q == p * q + r * q;
    assert (p + r) * s == p * s + r * s;
    assert r * (q + s) == r * q + r * s;
  }

  /** Equality is structural: `1/2` and `2/4` differ although they have the same value. */
  lemma NoReduction()
    ensures New(1, 2) != New(2, 4)
    ensures Value(New(1, 2)) == Value(New(2, 4))
  {
    ValueEqual(New(1, 2), New(2, 4));
  }

  /** The library's own test vectors. */
  lemma IntTestVectors()
    ensures FromPair((1, 2)) == New(1, 2)
    ensures Add(IntRing, FromPair((1, 2)), FromPair((1, 3))) == FromPair((5, 6))
    ensures Mul(IntRing, FromPair((2, 3)), FromPair((5, 7))) == FromPair((10, 21))
    ensures Mediant(IntRing, FromPair((1, 2)), FromPair((1, 3))) == FromPair((2, 5))
  {
    IntComponents(New(1, 2), New(1, 3));
    IntComponents(New(2, 3), New(5, 7));
  }

  // ----- Text -----

  /** `Parse` inverts `Show` whenever the base type's own rendering is slash-free and parses back. */
  lemma ShowRoundTrip<T>(show: T -> string, parse: string -> Option<T>, x: Fraction<T>)
    requires '/' !in show(x.numerator)
    requires parse(show(x.numerator)) == Some(x.numerator)
    requires parse(show(x.denominator)) == Some(x.denominator)
    ensures Parse(parse, Show(show, x)) == Some(x)
  {
    SplitAtJoin(show(x.numerator), '/', show(x.denominator));
    assert Show(show, x) == show(x.numerator) + ['/'] + show(x.denominator);
  }

  lemma IntShowRoundTrip(x: Fraction<int>)
    ensures Parse(ParseInt, Show(IntToString, x)) == Some(x)
  {
    IntToStringRoundTrip(x.numerator);
    IntToStringRoundTrip(x.denominator);
    var s := IntToString(x.numerator);
    assert forall k :: 0 <= k < |s| ==> s[k] != '/';
    ShowRoundTrip(IntToString, ParseInt, x);
  }

  lemma GaussianShowRoundTrip(x: Fraction<GaussianInts.Gaussian>)
    ensures Parse(GaussianInts.Parse, Show(GaussianInts.Show, x)) == Some(x)
  {
    GaussianInts.ShowHasNoSlash(x.numerator);
    GaussianInts.ShowRoundTrip(x.numerator);
    GaussianInts.ShowRoundTrip(x.denominator);
    ShowRoundTrip(GaussianInts.Show, GaussianInts.Parse, x);
  }

  /** `1/2` prints as `"1/2"`, and `(1+i)/2` as `"1+1i/2"`. */
  lemma ShowExamples()
    ensures Show(IntToString, New(1, 2)) == "1/2"
    ensures Show(GaussianInts.Show, New(GaussianInts.New(1, 1), GaussianInts.FromInt(2))) == "1+1i/2"
  {
  }
}
