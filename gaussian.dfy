/**
 * Gaussian integers `re + im·i` (the fields `real` and `complex` of the
 * library; `real` is a reserved word here) over an integer base type: the ring
 * operations, the norm, the zero test, the quotient and remainder built by
 * scaling with the conjugate, the recursive gcd built on them, the two
 * conversions and the three-branch display.
 */
module GaussianInts {
  import opened IntArith
  import opened Wrappers
  import opened Text

  datatype Gaussian = Gaussian(re: int, im: int)

  function New(re: int, im: int): Gaussian {
    Gaussian(re, im)
  }

  /** `From<T>`: a base-type value as a Gaussian integer with no imaginary part. */
  function FromInt(t: int): Gaussian {
    New(t, 0)
  }

  /** `From<(T, T)>`: the pair is taken as (real part, imaginary part). */
  function FromPair(t: (int, int)): Gaussian {
    New(t.0, t.1)
  }

  function Zero(): Gaussian {
    New(0, 0)
  }

  /** Holds exactly of the zero element. */
  function IsZero(g: Gaussian): (b: bool)
    ensures b <==> g == Zero()
  {
    g.re == 0 && g.im == 0
  }

  function Add(x: Gaussian, y: Gaussian): Gaussian {
    New(x.re + y.re, x.im + y.im)
  }

  function Neg(x: Gaussian): Gaussian {
    New(-x.re, -x.im)
  }

  function Sub(x: Gaussian, y: Gaussian): Gaussian {
    Add(x, Neg(y))
  }

  function Mul(x: Gaussian, y: Gaussian): Gaussian {
    New(x.re * y.re - x.im * y.im, x.re * y.im + x.im * y.re)
  }

  /** The complex conjugate; not an operation of the library, used to state its division. */
  function Conj(x: Gaussian): Gaussian {
    New(x.re, -x.im)
  }

  /** `real² + complex²`: never negative, and 0 only for the zero element. */
  function Norm(g: Gaussian): (n: int)
    ensures n >= 0
    ensures n == 0 <==> IsZero(g)
  {
    SquareFacts(g.re);
    SquareFacts(g.im);
    g.re * g.re + g.im * g.im
  }

  lemma SquareFacts(x: int)
    ensures x * x >= 0
    ensures x * x == 0 <==> x == 0
  {
    if x != 0 {
      MulMagnitude(x, x);
    }
  }

  /**
   * The quotient and remainder: with `a + b·i = x·conj(y)` and `n = norm(y)`,
   * each component of `a + b·i` is divided by `n` with the base type's
   * truncating `/` and `%`. So `a + b·i == q·n + r`, and each component of
   * `r` is smaller in magnitude than `n` and has the sign of its dividend.
   * A zero divisor is a division by zero in the base type.
   */
  function QuoRem(x: Gaussian, y: Gaussian): (res: (Gaussian, Gaussian))
    requires !IsZero(y)
    ensures var n, s, q, r := Norm(y), Mul(x, Conj(y)), res.0, res.1;
      && s.re == q.re * n + r.re && s.im == q.im * n + r.im
      && Abs(r.re) < n && Abs(r.im) < n
      && (s.re >= 0 ==> r.re >= 0) && (s.re <= 0 ==> r.re <= 0)
      && (s.im >= 0 ==> r.im >= 0) && (s.im <= 0 ==> r.im <= 0)
  {
    var n := Norm(y);
    var a := x.re * y.re + x.im * y.im;
    var b := x.im * y.re - x.re * y.im;
    TDivRem(a, n);
    TDivRem(b, n);
    (New(TDiv(a, n), TDiv(b, n)), New(TRem(a, n), TRem(b, n)))
  }

  /** `QuoRem` divides the two components of `x·conj(y)` by the norm. */
  lemma QuoRemComponents(x: Gaussian, y: Gaussian, a: int, b: int, n: int)
    requires !IsZero(y) && n == Norm(y)
    requires a == x.re * y.re + x.im * y.im && b == x.im * y.re - x.re * y.im
    ensures QuoRem(x, y) == (New(TDiv(a, n), TDiv(b, n)), New(TRem(a, n), TRem(b, n)))
  {
  }

  /** `x / y`: the first half of `QuoRem`. */
  function Div(x: Gaussian, y: Gaussian): Gaussian
    requires !IsZero(y)
  {
    QuoRem(x, y).0
  }

  /** `x % y`: the second half of `QuoRem`. */
  function Rem(x: Gaussian, y: Gaussian): Gaussian
    requires !IsZero(y)
  {
    QuoRem(x, y).1
  }

  // ---------------------------------------------------------------------
  // Ring laws

  lemma AddLaws(x: Gaussian, y: Gaussian, z: Gaussian)
    ensures Add(x, y) == Add(y, x)
    ensures Add(Add(x, y), z) == Add(x, Add(y, z))
    ensures Add(x, Zero()) == x
    ensures Add(x, Neg(x)) == Zero()
  {
  }

  /** Subtraction is the component-wise difference, and undoes addition. */
  lemma SubLaws(x: Gaussian, y: Gaussian)
    ensures Sub(x, y) == New(x.re - y.re, x.im - y.im)
    ensures Add(Sub(x, y), y) == x && Sub(Add(x, y), y) == x
    ensures Neg(Neg(x)) == x
  {
  }

  lemma MulLaws(x: Gaussian, y: Gaussian, z: Gaussian)
    ensures Mul(x, y) == Mul(y, x)
    ensures Mul(Mul(x, y), z) == Mul(x, Mul(y, z))
    ensures Mul(x, Add(y, z)) == Add(Mul(x, y), Mul(x, z))
    ensures Mul(x, Sub(y, z)) == Sub(Mul(x, y), Mul(x, z))
    ensures Mul(x, FromInt(1)) == x
  {
  }

  /** The norm is multiplicative, and `g·conj(g)` is the norm as a Gaussian integer. */
  lemma NormLaws(x: Gaussian, y: Gaussian)
    ensures Norm(Mul(x, y)) == Norm(x) * Norm(y)
    ensures Norm(Conj(x)) == Norm(x)
    ensures Mul(x, Conj(x)) == FromInt(Norm(x))
  {
  }

  /** The two conversions agree, and the integers embed as a subring. */
  lemma Conversions(s: int, t: int)
    ensures FromInt(t) == FromPair((t, 0))
    ensures FromPair((s, t)).re == s && FromPair((s, t)).im == t
    ensures FromInt(s + t) == Add(FromInt(s), FromInt(t))
    ensures FromInt(s * t) == Mul(FromInt(s), FromInt(t))
    ensures Norm(FromInt(t)) == t * t
    ensures IsZero(FromInt(t)) <==> t == 0
  {
  }

  // ---------------------------------------------------------------------
  // Division

  /** Multiplying by `y` and then by `conj(y)` scales by the norm of `y`. */
  lemma ScaleByNorm(q: Gaussian, y: Gaussian)
    ensures Mul(Mul(q, y), Conj(y)) == Mul(q, FromInt(Norm(y)))
    ensures Mul(q, FromInt(Norm(y))) == New(q.re * Norm(y), q.im * Norm(y))
  {
    MulLaws(q, y, Conj(y));
    NormLaws(y, y);
  }

  /** Right distributivity over subtraction. */
  lemma MulSubRight(x: Gaussian, y: Gaussian, z: Gaussian)
    ensures Mul(Sub(x, y), z) == Sub(Mul(x, z), Mul(y, z))
  {
    MulLaws(z, x, y);
    MulLaws(Sub(x, y), z, z);
    MulLaws(x, z, z);
    MulLaws(y, z, z);
  }

  /**
   * The remainder is the scaled remainder `(x − q·y)·conj(y)`, and with the
   * quotient scaled by the norm it rebuilds `x·conj(y)`.
   */
  lemma DivRemIdentity(x: Gaussian, y: Gaussian)
    requires !IsZero(y)
    ensures Add(Mul(Div(x, y), FromInt(Norm(y))), Rem(x, y)) == Mul(x, Conj(y))
    ensures Rem(x, y) == Mul(Sub(x, Mul(Div(x, y), y)), Conj(y))
  {
    var q, r := Div(x, y), Rem(x, y);
    ScaleByNorm(q, y);
    MulSubRight(x, Mul(q, y), Conj(y));
    var s, t := Mul(x, Conj(y)), Mul(q, FromInt(Norm(y)));
    assert Add(t, r) == s;
    SubLaws(s, t);
  }

  /** Exact division is exact: `(q·y) / y == q` and `(q·y) % y == 0`. */
  lemma DivExact(q: Gaussian, y: Gaussian)
    requires !IsZero(y)
    ensures Div(Mul(q, y), y) == q
    ensures IsZero(Rem(Mul(q, y), y))
  {
    var n, x := Norm(y), Mul(q, y);
    ScaleByNorm(q, y);
    var a, b := n * q.re, n * q.im;
    assert a == x.re * y.re + x.im * y.im && b == x.im * y.re - x.re * y.im by {
      var s := Mul(x, Conj(y));
      assert s.re == x.re * y.re + x.im * y.im && s.im == x.im * y.re - x.re * y.im;
      assert s.re == q.re * n && s.im == q.im * n;
    }
    TDivExact(q.re, n);
    TDivExact(q.im, n);
    QuoRemComponents(x, y, a, b, n);
  }

  /** Test vectors: `(1,0) + (0,1) == (1,1)`, `(1,2)·(3,4) == (-5,10)`, `5 / (2−i) == 2+i`. */
  lemma ArithmeticTestVectors()
    ensures Add(FromPair((1, 0)), FromPair((0, 1))) == FromPair((1, 1))
    ensures Mul(FromPair((1, 2)), FromPair((3, 4))) == FromPair((-5, 10))
    ensures Div(FromInt(5), FromPair((2, -1))) == FromPair((2, 1))
  {
    assert FromInt(5) == Mul(FromPair((2, 1)), FromPair((2, -1)));
    DivExact(FromPair((2, 1)), FromPair((2, -1)));
  }

  // ---------------------------------------------------------------------
  // Divisibility and the gcd

  /** `d` divides `x` in the Gaussian integers. */
  ghost predicate Divides(d: Gaussian, x: Gaussian) {
    exists k :: Mul(d, k) == x
  }

  /** A common divisor of `u` and `v` divides `u·s − v·t`. */
  lemma DividesCombination(d: Gaussian, u: Gaussian, v: Gaussian, s: Gaussian, t: Gaussian)
    requires Divides(d, u) && Divides(d, v)
    ensures Divides(d, Sub(Mul(u, s), Mul(v, t)))
  {
    var ku :| Mul(d, ku) == u;
    var kv :| Mul(d, kv) == v;
    var k := Sub(Mul(ku, s), Mul(kv, t));
    MulLaws(d, Mul(ku, s), Mul(kv, t));
    MulLaws(d, ku, s);
    MulLaws(d, kv, t);
    assert Mul(d, k) == Sub(Mul(u, s), Mul(v, t));
  }

  /**
   * `gcd(x, 0) == x`, otherwise `gcd(x, y) == gcd(y, x % y)`. The remainder
   * need not be smaller in norm than `y`, so the recursion is given `fuel`
   * calls and answers `None` when they run out.
   */
  function GcdFuel(x: Gaussian, y: Gaussian, fuel: nat): Option<Gaussian>
    decreases fuel
  {
    if IsZero(y) then Some(x)
    else if fuel == 0 then None
    else GcdFuel(y, Rem(x, y), fuel - 1)
  }

  /** More fuel never changes an answer once there is one. */
  lemma {:induction false} GcdFuelMonotone(x: Gaussian, y: Gaussian, fuel: nat, more: nat)
    requires GcdFuel(x, y, fuel).Some? && fuel <= more
    ensures GcdFuel(x, y, more) == GcdFuel(x, y, fuel)
    decreases fuel
  {
    if !IsZero(y) {
      GcdFuelMonotone(y, Rem(x, y), fuel - 1, more - 1);
    }
  }

  /** The remainder is a combination of `x` and `y`: `x·conj(y) − y·(q·conj(y))`. */
  lemma RemAsCombination(x: Gaussian, y: Gaussian)
    requires !IsZero(y)
    ensures Rem(x, y) == Sub(Mul(x, Conj(y)), Mul(y, Mul(Div(x, y), Conj(y))))
  {
    DivRemIdentity(x, y);
    var q := Div(x, y);
    MulLaws(q, y, Conj(y));
    MulLaws(y, q, Conj(y));
    MulLaws(q, y, y);
    MulSubRight(x, Mul(q, y), Conj(y));
  }

  /** Every common divisor of the arguments divides the gcd, when it returns. */
  lemma {:induction false} GcdCommonDivisor(x: Gaussian, y: Gaussian, fuel: nat, d: Gaussian)
    requires Divides(d, x) && Divides(d, y)
    requires GcdFuel(x, y, fuel).Some?
    ensures Divides(d, GcdFuel(x, y, fuel).value)
    decreases fuel
  {
    if !IsZero(y) {
      RemAsCombination(x, y);
      DividesCombination(d, x, y, Conj(y), Mul(Div(x, y), Conj(y)));
      GcdCommonDivisor(y, Rem(x, y), fuel - 1, d);
    }
  }

  /** Test vector: `gcd(5, 2+i) == 2+i`, after one remainder step. */
  lemma GcdTestVector()
    ensures GcdFuel(FromInt(5), FromPair((2, 1)), 1) == Some(FromPair((2, 1)))
  {
    assert FromInt(5) == Mul(FromPair((2, -1)), FromPair((2, 1)));
    DivExact(FromPair((2, -1)), FromPair((2, 1)));
  }

  /**
   * The gcd's result need not divide its arguments: `gcd(1, 1+i)` returns
   * `1−i`, which does not divide 1 (the greatest common divisor of 1 and
   * 1+i is a unit). The remainder `(x − q·y)·conj(y)` brings in the factor
   * `conj(y)`, which the next step keeps.
   */
  lemma GcdResultNeedNotDivide()
    ensures GcdFuel(FromInt(1), FromPair((1, 1)), 2) == Some(FromPair((1, -1)))
    ensures !Divides(FromPair((1, -1)), FromInt(1))
  {
    RemOfOneByOnePlusI();
    RemOfOnePlusIByOneMinusI();
    OneMinusIDoesNotDivideOne();
  }

  lemma RemOfOneByOnePlusI()
    ensures Rem(FromInt(1), FromPair((1, 1))) == FromPair((1, -1))
  {
    QuoRemComponents(FromInt(1), FromPair((1, 1)), 1, -1, 2);
    TDivSmall(1, 2);
    TDivSmall(-1, 2);
  }

  lemma RemOfOnePlusIByOneMinusI()
    ensures Rem(FromPair((1, 1)), FromPair((1, -1))) == Zero()
  {
    QuoRemComponents(FromPair((1, 1)), FromPair((1, -1)), 0, 2, 2);
    TDivExact(0, 2);
    TDivExact(1, 2);
  }

  lemma OneMinusIDoesNotDivideOne()
    ensures !Divides(FromPair((1, -1)), FromInt(1))
  {
    forall k: Gaussian
      ensures Mul(FromPair((1, -1)), k) != FromInt(1)
    {
      assert Mul(FromPair((1, -1)), k) == New(k.re + k.im, k.im - k.re);
    }
  }

  /**
   * When `1 < norm(x) < norm(y)` the quotient is 0 and the remainder is
   * `x·conj(y)`, whose norm is `norm(x)·norm(y)`: the next call meets the
   * same condition with a larger norm, so the gcd never returns, for any fuel.
   * So `gcd(1+i, 2)` never returns a result, though 1+i divides 2: over
   * unbounded integers the recursion is endless, and over a fixed width the
   * growing norms overflow (with `i64`, in the norm computed by the 9th call),
   * which panics or, with wrap-around, ends in a division by zero.
   */
  lemma {:induction false} GcdDiverges(x: Gaussian, y: Gaussian, fuel: nat)
    requires 1 < Norm(x) < Norm(y)
    ensures GcdFuel(x, y, fuel) == None
    decreases fuel
  {
    if fuel > 0 {
      var r := Rem(x, y);
      RemOfSmaller(x, y);
      MulStrict(1, Norm(x), Norm(y));
      GcdDiverges(y, r, fuel - 1);
    }
  }

  /** Dividing by a divisor of larger norm leaves `x·conj(y)` whole as the remainder. */
  lemma RemOfSmaller(x: Gaussian, y: Gaussian)
    requires Norm(x) < Norm(y)
    ensures Rem(x, y) == Mul(x, Conj(y))
    ensures Norm(Rem(x, y)) == Norm(x) * Norm(y)
  {
    var n, s := Norm(y), Mul(x, Conj(y));
    QuoRemComponents(x, y, s.re, s.im, n);
    NormLaws(x, Conj(y));
    NormLaws(y, y);
    assert s.re * s.re + s.im * s.im == Norm(x) * n;
    MulStrict(Norm(x), n, n);
    SquareFacts(s.re);
    SquareFacts(s.im);
    SquareBelow(s.re, n);
    SquareBelow(s.im, n);
    TDivSmall(s.re, n);
    TDivSmall(s.im, n);
  }

  /** `gcd(1+i, 2)` returns for no amount of fuel. */
  lemma GcdDivergesExample(fuel: nat)
    ensures GcdFuel(FromPair((1, 1)), FromInt(2), fuel) == None
  {
    GcdDiverges(FromPair((1, 1)), FromInt(2), fuel);
  }

  // ---------------------------------------------------------------------
  // Display

  /**
   * `Display`: only the real part when the imaginary part is 0; `"<im>i"`
   * when only the real part is 0; `"<re>+<im>i"` otherwise (a negative
   * imaginary part keeps its own sign, as in `3+-2i`).
   */
  function Show(g: Gaussian): string {
    if g.im == 0 then IntToString(g.re)
    else if g.re == 0 then IntToString(g.im) + "i"
    else IntToString(g.re) + "+" + IntToString(g.im) + "i"
  }

  /** Reads the three display forms back. */
  function Parse(s: string): Option<Gaussian> {
    if |s| > 0 && s[|s| - 1] == 'i' then
      var body := s[..|s| - 1];
      match SplitAt(body, '+')
      case Some((re, im)) =>
        (match (ParseInt(re), ParseInt(im))
         case (Some(a), Some(b)) => Some(New(a, b))
         case _ => None)
      case None =>
        (match ParseInt(body)
         case Some(b) => Some(New(0, b))
         case None => None)
    else
      match ParseInt(s)
      case Some(a) => Some(New(a, 0))
      case None => None
  }

  /** Display text never holds the fraction separator `/`. */
  lemma ShowHasNoSlash(g: Gaussian)
    ensures '/' !in Show(g)
  {
  }

  /** Each of the three display forms reads back as the value shown. */
  lemma ShowRoundTrip(g: Gaussian)
    ensures Parse(Show(g)) == Some(g)
  {
    IntToStringRoundTrip(g.re);
    IntToStringRoundTrip(g.im);
    var s := Show(g);
    if g.im == 0 {
      assert s[|s| - 1] != 'i';
    } else if g.re == 0 {
      assert s[..|s| - 1] == IntToString(g.im);
      assert '+' !in IntToString(g.im);
    } else {
      var re, im := IntToString(g.re), IntToString(g.im);
      assert s[..|s| - 1] == re + ['+'] + im;
      assert '+' !in re;
      SplitAtJoin(re, '+', im);
    }
  }

  /** Test vector of the third branch: `3 − 2i` is shown as `3+-2i`. */
  lemma ShowNegativeImaginary()
    ensures Show(New(3, -2)) == "3+-2i"
  {
  }
}
