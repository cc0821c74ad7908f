/**
 * The `Gcd` capability of the integer base types: Euclid's recursion with
 * Rust's truncating remainder. One definition over unbounded integers
 * stands for the ten fixed-width instances; unsigned widths are the calls
 * with non-negative arguments.
 */
module IntGcd {
  import opened IntArith

  /**
   * `gcd(a, 0) == a`; otherwise `gcd(a, b) == gcd(b, a % b)`. The magnitude
   * of the second argument shrinks on every call, so the recursion ends.
   * The result is 0 only for `gcd(0, 0)`, and it is never negative for
   * non-negative arguments (its sign is not normalised otherwise).
   */
  function Gcd(a: int, b: int): (g: int)
    ensures g == 0 <==> a == 0 && b == 0
    ensures a >= 0 && b >= 0 ==> g >= 0
    decreases Abs(b)
  {
    if b == 0 then a else Gcd(b, TRem(a, b))
  }

  /** The result divides both arguments. */
  lemma {:induction false} GcdDivides(a: int, b: int)
    ensures Divides(Gcd(a, b), a) && Divides(Gcd(a, b), b)
    decreases Abs(b)
  {
    var g := Gcd(a, b);
    if b == 0 {
      DividesMul(a, 1);
      DividesMul(a, 0);
    } else {
      var r := TRem(a, b);
      GcdDivides(b, r);
      TDivRem(a, b);
      DividesCombination(g, b, r, TDiv(a, b), 1);
    }
  }

  /** Every common divisor of the arguments divides the result. */
  lemma {:induction false} GcdGreatest(a: int, b: int, d: int)
    requires Divides(d, a) && Divides(d, b)
    ensures Divides(d, Gcd(a, b))
    decreases Abs(b)
  {
    if b != 0 {
      var q, r := TDiv(a, b), TRem(a, b);
      TDivRem(a, b);
      assert a * 1 + b * -q == r;
      DividesCombination(d, a, b, 1, -q);
      GcdGreatest(b, r, d);
    }
  }

  /**
   * The magnitude of the result is the greatest common divisor: it is a
   * common divisor, and no common divisor is larger in magnitude.
   */
  lemma GcdIsGreatestInMagnitude(a: int, b: int, d: int)
    requires a != 0 || b != 0
    requires Divides(d, a) && Divides(d, b)
    ensures Abs(d) <= Abs(Gcd(a, b))
  {
    GcdGreatest(a, b, d);
    DividesBound(d, Gcd(a, b));
  }

  /** Two integers with an integer combination equal to 1 have gcd 1. */
  lemma GcdOfUnimodular(a: int, b: int, s: int, t: int)
    requires a >= 0 && b >= 0
    requires a * s + b * t == 1
    ensures Gcd(a, b) == 1
  {
    var g := Gcd(a, b);
    GcdDivides(a, b);
    DividesCombination(g, a, b, s, t);
    DividesBound(g, 1);
  }

  /** The sign is not normalised: `gcd(4, -6)` is `-2`. */
  lemma GcdCanBeNegative()
    ensures Gcd(4, -6) == -2
    ensures Gcd(-4, 0) == -4
  {
  }

  /** `gcd(37, 51) == 1`, for every width. */
  lemma GcdTestVector()
    ensures Gcd(37, 51) == 1
  {
    assert TRem(37, 51) == 37 && TRem(51, 37) == 14 && TRem(37, 14) == 9;
    assert TRem(14, 9) == 5 && TRem(9, 5) == 4 && TRem(5, 4) == 1 && TRem(4, 1) == 0;
    calc {
      Gcd(37, 51);
      Gcd(51, 37);
      Gcd(37, 14);
      Gcd(14, 9);
      Gcd(9, 5);
      Gcd(5, 4);
      Gcd(4, 1);
      Gcd(1, 0);
    }
  }
}
