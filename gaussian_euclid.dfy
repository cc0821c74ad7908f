/**
 * A Euclidean division and gcd for Gaussian integers that do what the
 * library's `quo_rem` and `gcd` are meant to do. The quotient rounds each
 * component of `x·conj(y) / norm(y)` to the nearest integer, and the
 * remainder is `x − q·y`. Then `x == q·y + r` and `2·norm(r) <= norm(y)`,
 * so the gcd recursion ends and its result is a greatest common divisor.
 */
module GaussianEuclid {
  import IntArith
  import opened GaussianInts

  /** `a / n` rounded to the nearest integer (halves round up). */
  function RoundDiv(a: int, n: int): (q: int)
    requires n > 0
    ensures -n <= 2 * (a - n * q) < n
  {
    var q := (2 * a + n) / (2 * n);
    assert 2 * a + n == 2 * n * q + (2 * a + n) % (2 * n);
    q
  }

  lemma RoundDivBound(a: int, n: int, q: int)
    requires n > 0 && q == RoundDiv(a, n)
    ensures -n <= 2 * (a - q * n) <= n
  {
  }

  /** The rounded quotient is the only `q` that leaves at most half of `n`. */
  lemma RoundDivUnique(a: int, n: int, q: int)
    requires n > 0 && -n <= 2 * (a - n * q) < n
    ensures RoundDiv(a, n) == q
  {
    var p := RoundDiv(a, n);
    assert 2 * (a - n * q) - 2 * (a - n * p) == 2 * n * (p - q);
    if p != q {
      IntArith.MulMagnitude(2 * n, p - q);
    }
  }

  /** When `n` divides `a`, rounding is exact. */
  lemma RoundDivExact(k: int, n: int)
    requires n > 0
    ensures RoundDiv(n * k, n) == k
  {
    RoundDivUnique(n * k, n, k);
  }

  /** The remainder, multiplied by `conj(y)`, is what rounding leaves of `x·conj(y)`. */
  lemma ScaledRemainder(x: Gaussian, y: Gaussian, q: Gaussian)
    ensures Mul(Sub(x, Mul(q, y)), Conj(y)) == Sub(Mul(x, Conj(y)), New(q.re * Norm(y), q.im * Norm(y)))
  {
    MulSubRight(x, Mul(q, y), Conj(y));
    ScaleByNorm(q, y);
  }

  /** A number at most half of `n` in magnitude has a square at most `n²/4`. */
  lemma HalfSquare(e: int, n: int)
    requires -n <= 2 * e <= n
    ensures 4 * (e * e) <= n * n
  {
    var u := IntArith.Abs(2 * e);
    assert u * u == 4 * (e * e);
    assert (n - u) * (n + u) == n * n - u * u;
    IntArith.MulNonneg(n - u, n + u);
  }

  /** Two components each at most half of `n` in magnitude give a norm at most `n²/2`. */
  lemma HalfBound(e: int, f: int, n: int, m: int)
    requires n > 0
    requires -n <= 2 * e <= n && -n <= 2 * f <= n
    requires m * n == e * e + f * f
    ensures 2 * m <= n
  {
    HalfSquare(e, n);
    HalfSquare(f, n);
    assert (2 * m) * n <= n * n;
    if 2 * m > n {
      IntArith.MulStrict(n, 2 * m, n);
    }
  }

  /**
   * Division with remainder that shrinks the norm: `x == q·y + r` and
   * `2·norm(r) <= norm(y)`, so `norm(r) < norm(y)`.
   */
  function NearestQuoRem(x: Gaussian, y: Gaussian): (res: (Gaussian, Gaussian))
    requires !IsZero(y)
    ensures x == Add(Mul(res.0, y), res.1)
    ensures 2 * Norm(res.1) <= Norm(y)
  {
    var n, s := Norm(y), Mul(x, Conj(y));
    var q := New(RoundDiv(s.re, n), RoundDiv(s.im, n));
    var r := Sub(x, Mul(q, y));
    NearestRemainderShrinks(x, y, q);
    SubLaws(x, Mul(q, y));
    AddLaws(r, Mul(q, y), r);
    (q, r)
  }

  /** `NearestQuoRem` rounds the two components of `x·conj(y)` divided by the norm. */
  lemma NearestQuoRemComponents(x: Gaussian, y: Gaussian, a: int, b: int, n: int)
    requires !IsZero(y) && n == Norm(y)
    requires a == x.re * y.re + x.im * y.im && b == x.im * y.re - x.re * y.im
    ensures var q := New(RoundDiv(a, n), RoundDiv(b, n));
      NearestQuoRem(x, y) == (q, Sub(x, Mul(q, y)))
  {
    assert Mul(x, Conj(y)) == New(a, b);
  }

  lemma NearestRemainderShrinks(x: Gaussian, y: Gaussian, q: Gaussian)
    requires !IsZero(y)
    requires q == New(RoundDiv(Mul(x, Conj(y)).re, Norm(y)), RoundDiv(Mul(x, Conj(y)).im, Norm(y)))
    ensures 2 * Norm(Sub(x, Mul(q, y))) <= Norm(y)
  {
    var n, s := Norm(y), Mul(x, Conj(y));
    var e, f := s.re - q.re * n, s.im - q.im * n;
    RemainderNorm(x, y, q);
    RoundDivBound(s.re, n, q.re);
    RoundDivBound(s.im, n, q.im);
    HalfBound(e, f, n, Norm(Sub(x, Mul(q, y))));
  }

  /** `norm(x − q·y)·norm(y)` is the norm of what is left of `x·conj(y)` after taking `q·norm(y)`. */
  lemma RemainderNorm(x: Gaussian, y: Gaussian, q: Gaussian)
    ensures var n, s := Norm(y), Mul(x, Conj(y));
      var e, f := s.re - q.re * n, s.im - q.im * n;
      Norm(Sub(x, Mul(q, y))) * n == e * e + f * f
  {
    var r := Sub(x, Mul(q, y));
    ScaledRemainder(x, y, q);
    NormLaws(r, Conj(y));
    NormLaws(y, y);
  }

  /** Euclid's algorithm with the shrinking remainder; the norm of `y` decreases. */
  function EuclidGcd(x: Gaussian, y: Gaussian): Gaussian
    decreases Norm(y)
  {
    if IsZero(y) then x else EuclidGcd(y, NearestQuoRem(x, y).1)
  }

  lemma SumAsCombination(q: Gaussian, y: Gaussian, r: Gaussian)
    ensures Sub(Mul(y, q), Mul(r, FromInt(-1))) == Add(Mul(q, y), r)
  {
  }

  lemma RemainderAsCombination(q: Gaussian, y: Gaussian, r: Gaussian)
    ensures Sub(Mul(Add(Mul(q, y), r), FromInt(1)), Mul(y, q)) == r
  {
  }

  /** The result divides both arguments. */
  lemma {:induction false} EuclidGcdDivides(x: Gaussian, y: Gaussian)
    ensures Divides(EuclidGcd(x, y), x) && Divides(EuclidGcd(x, y), y)
    decreases Norm(y)
  {
    if IsZero(y) {
      assert Mul(x, FromInt(1)) == x;
      assert Mul(x, Zero()) == y;
    } else {
      var (q, r) := NearestQuoRem(x, y);
      var g := EuclidGcd(x, y);
      EuclidGcdDivides(y, r);
      DividesCombination(g, y, r, q, FromInt(-1));
      SumAsCombination(q, y, r);
    }
  }

  /** Every common divisor of the arguments divides the result. */
  lemma {:induction false} EuclidGcdGreatest(x: Gaussian, y: Gaussian, d: Gaussian)
    requires Divides(d, x) && Divides(d, y)
    ensures Divides(d, EuclidGcd(x, y))
    decreases Norm(y)
  {
    if !IsZero(y) {
      var (q, r) := NearestQuoRem(x, y);
      DividesCombination(d, x, y, FromInt(1), q);
      RemainderAsCombination(q, y, r);
      EuclidGcdGreatest(y, r, d);
    }
  }

  /** On exact division the rounded quotient is the library's quotient. */
  lemma NearestAgreesOnExactDivision(q: Gaussian, y: Gaussian)
    requires !IsZero(y)
    ensures NearestQuoRem(Mul(q, y), y).0 == Div(Mul(q, y), y) == q
    ensures IsZero(NearestQuoRem(Mul(q, y), y).1)
  {
    DivExact(q, y);
    ScaleByNorm(q, y);
    var n := Norm(y);
    assert Mul(Mul(q, y), Conj(y)) == New(n * q.re, n * q.im);
    RoundDivExact(q.re, n);
    RoundDivExact(q.im, n);
    SubLaws(Mul(q, y), Mul(q, y));
  }

  /** `gcd(5, 2+i) == 2+i`, the library's own test vector, unchanged. */
  lemma EuclidGcdTestVector()
    ensures EuclidGcd(FromInt(5), FromPair((2, 1))) == FromPair((2, 1))
  {
    assert FromInt(5) == Mul(FromPair((2, -1)), FromPair((2, 1)));
    NearestAgreesOnExactDivision(FromPair((2, -1)), FromPair((2, 1)));
  }

  /** One Euclidean step: the gcd of `x` and `y` is that of `y` and the remainder. */
  lemma EuclidGcdStep(x: Gaussian, y: Gaussian, r: Gaussian)
    requires !IsZero(y) && NearestQuoRem(x, y).1 == r
    ensures EuclidGcd(x, y) == EuclidGcd(y, r)
  {
  }

  /** When `g` divides `y` exactly, the gcd of `y` and `g` is `g` itself. */
  lemma EuclidGcdOfMultiple(q: Gaussian, g: Gaussian, y: Gaussian)
    requires !IsZero(g) && y == Mul(q, g)
    ensures EuclidGcd(y, g) == g
  {
    NearestAgreesOnExactDivision(q, g);
    var r := NearestQuoRem(y, g).1;
    EuclidGcdStep(y, g, r);
    EuclidGcdOfZero(g, r);
  }

  lemma EuclidGcdOfZero(x: Gaussian, z: Gaussian)
    requires IsZero(z)
    ensures EuclidGcd(x, z) == x
  {
  }

  /** `gcd(1, 1+i) == −i`, a unit, where the library's gcd answers `1−i`. */
  lemma EuclidGcdOfOneAndOnePlusI()
    ensures EuclidGcd(FromInt(1), FromPair((1, 1))) == FromPair((0, -1))
  {
    var x, y, g := FromInt(1), FromPair((1, 1)), FromPair((0, -1));
    assert y == Mul(FromPair((-1, 1)), g);
    NearestRemOfOneByOnePlusI();
    EuclidGcdStep(x, y, g);
    EuclidGcdOfMultiple(FromPair((-1, 1)), g, y);
  }

  lemma NearestRemOfOneByOnePlusI()
    ensures NearestQuoRem(FromInt(1), FromPair((1, 1))).1 == FromPair((0, -1))
  {
    RoundDivUnique(1, 2, 1);
    RoundDivUnique(-1, 2, 0);
    NearestQuoRemComponents(FromInt(1), FromPair((1, 1)), 1, -1, 2);
  }

  /** `gcd(1+i, 2) == −1−i`, an associate of 1+i, where the library's gcd does not return. */
  lemma EuclidGcdOfOnePlusIAndTwo()
    ensures EuclidGcd(FromPair((1, 1)), FromInt(2)) == FromPair((-1, -1))
  {
    var x, y, g := FromPair((1, 1)), FromInt(2), FromPair((-1, -1));
    assert y == Mul(FromPair((-1, 1)), g);
    NearestRemOfOnePlusIByTwo();
    EuclidGcdStep(x, y, g);
    EuclidGcdOfMultiple(FromPair((-1, 1)), g, y);
  }

  lemma NearestRemOfOnePlusIByTwo()
    ensures NearestQuoRem(FromPair((1, 1)), FromInt(2)).1 == FromPair((-1, -1))
  {
    RoundDivUnique(2, 4, 1);
    NearestQuoRemComponents(FromPair((1, 1)), FromInt(2), 2, 2, 4);
  }
}
