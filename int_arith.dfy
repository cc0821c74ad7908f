/**
 * Integer arithmetic as the library's base types perform it.
 *
 * Rust's `/` and `%` on integers truncate toward zero and the remainder
 * takes the sign of the dividend; Dafny's `/` and `%` are Euclidean. The
 * functions here restate Rust's operators over unbounded integers, and
 * `Divides` is the divisibility relation used to state what a gcd is.
 */
module IntArith {

  function Abs(x: int): (r: nat)
    ensures r == x || r == -x
  {
    if x < 0 then -x else x
  }

  /** Rust's `a / b`: the quotient rounded toward zero. */
  function TDiv(a: int, b: int): int
    requires b != 0
  {
    if (a >= 0) == (b > 0) then Abs(a) / Abs(b) else -(Abs(a) / Abs(b))
  }

  /** Rust's `a % b`: smaller in magnitude than `b`, with the sign of `a`. */
  function TRem(a: int, b: int): (r: int)
    requires b != 0
    ensures Abs(r) < Abs(b)
    ensures a >= 0 ==> r >= 0
    ensures a <= 0 ==> r <= 0
  {
    if a >= 0 then Abs(a) % Abs(b) else -(Abs(a) % Abs(b))
  }

  /** The two operators together split `a` exactly: `a == b * (a / b) + a % b`. */
  lemma TDivRem(a: int, b: int)
    requires b != 0
    ensures a == b * TDiv(a, b) + TRem(a, b)
  {
    var q, m := Abs(a) / Abs(b), Abs(a) % Abs(b);
    assert Abs(a) == Abs(b) * q + m;
    if a >= 0 && b > 0 {
    } else if a >= 0 {
      assert b * -q == Abs(b) * q;
    } else if b > 0 {
      assert b * -q == -(Abs(b) * q);
    } else {
      assert b * q == -(Abs(b) * q);
    }
  }

  /** When `b` divides `a` exactly, truncation loses nothing. */
  lemma TDivExact(k: int, b: int)
    requires b != 0
    ensures TDiv(b * k, b) == k && TRem(b * k, b) == 0
  {
    var a := b * k;
    TDivRem(a, b);
    var q, r := TDiv(a, b), TRem(a, b);
    assert b * (k - q) == r;
    if k != q {
      MulMagnitude(b, k - q);
    }
  }

  /** A nonzero multiple of `b` is at least as large as `b`. */
  lemma MulMagnitude(b: int, k: int)
    requires k != 0
    ensures Abs(b * k) >= Abs(b)
  {
    var m, j := Abs(b), Abs(k);
    assert Abs(b * k) == m * j by {
      if b < 0 && k < 0 { assert b * k == (-b) * (-k); }
      else if b < 0 { assert b * k == -((-b) * k); }
      else if k < 0 { assert b * k == -(b * (-k)); }
    }
    assert m * j - m == m * (j - 1);
    assert m * (j - 1) >= 0;
  }

  /** When `a` is smaller in magnitude than `b`, the quotient is 0. */
  lemma TDivSmall(a: int, b: int)
    requires b != 0 && Abs(a) < Abs(b)
    ensures TDiv(a, b) == 0 && TRem(a, b) == a
  {
    var n := Abs(b);
    var q, m := Abs(a) / n, Abs(a) % n;
    assert Abs(a) == n * q + m && 0 <= m < n;
    if q != 0 {
      MulMagnitude(n, q);
    }
  }

  /** `d` divides `x`: `x` is `d` times some integer (0 divides only 0). */
  predicate Divides(d: int, x: int) {
    if d == 0 then x == 0 else x % d == 0
  }

  /** The witness of `Divides`: `x == d * k`. */
  lemma DividesWitness(d: int, x: int) returns (k: int)
    requires Divides(d, x)
    ensures x == d * k
  {
    if d == 0 {
      k := 0;
    } else {
      k := x / d;
    }
  }

  lemma DividesMul(d: int, k: int)
    ensures Divides(d, d * k)
  {
    if d != 0 {
      var x := d * k;
      var q, m := x / d, x % d;
      assert x == d * q + m && 0 <= m < Abs(d);
      assert d * (k - q) == m;
      if k != q {
        MulMagnitude(d, k - q);
      }
    }
  }

  /** A common divisor of `u` and `v` divides every combination `u*s + v*t`. */
  lemma DividesCombination(d: int, u: int, v: int, s: int, t: int)
    requires Divides(d, u) && Divides(d, v)
    ensures Divides(d, u * s + v * t)
  {
    var ku := DividesWitness(d, u);
    var kv := DividesWitness(d, v);
    assert u * s + v * t == d * (ku * s + kv * t);
    DividesMul(d, ku * s + kv * t);
  }

  /** A divisor of a nonzero number is no larger than it. */
  lemma DividesBound(d: int, x: int)
    requires Divides(d, x) && x != 0
    ensures Abs(d) <= Abs(x)
  {
    var k := DividesWitness(d, x);
    assert k != 0;
    MulMagnitude(d, k);
  }

  lemma MulNonneg(a: int, b: int)
    requires a >= 0 && b >= 0
    ensures a * b >= 0
  {
  }

  /** A square below `n²` has a root below `n` in magnitude. */
  lemma SquareBelow(a: int, n: int)
    requires n > 0 && a * a < n * n
    ensures Abs(a) < n
  {
    if a >= n {
      assert (a - n) * (a + n) == a * a - n * n;
      MulNonneg(a - n, a + n);
    } else if a <= -n {
      assert (-a - n) * (-a + n) == a * a - n * n;
      MulNonneg(-a - n, -a + n);
    }
  }

  lemma MulStrict(a: int, b: int, c: int)
    requires a < b && c > 0
    ensures a * c < b * c
  {
    assert b * c - a * c == (b - a) * c;
    MulNonneg(b - a - 1, c);
  }
}
