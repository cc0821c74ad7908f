/**
 * The complex example program: starting from `[1/1, i/1]` over the
 * Gaussian integers it applies the mediant refinement `n − 1` times (no
 * round at all when `n` is 0 or 1). The lemmas show the invariant the
 * rounds keep: every denominator is a positive ordinary integer, every
 * numerator lies in the closed first quadrant, and every two neighbours
 * `a/b`, `c/d` satisfy `b·c − a·d == −1 + i`.
 */
module ComplexExample {
  import opened Rings
  import opened Refinement
  import Fractions
  import opened GaussianInts

  type Fraction = Fractions.Fraction<Gaussian>

  function Mediant(x: Fraction, y: Fraction): Fraction {
    Fractions.Mediant(GaussianRing, x, y)
  }

  /** One round: copy each element and follow it by its mediant with the next one. */
  method Mediants(original: seq<Fraction>) returns (result: seq<Fraction>)
    requires |original| > 0
    ensures |result| == 2 * |original| - 1
    ensures forall i :: 0 <= i < |original| ==> result[2 * i] == original[i]
    ensures forall i :: 0 <= i < |original| - 1 ==> result[2 * i + 1] == Mediant(original[i], original[i + 1])
    ensures result == Refine(Mediant, original)
  {
    result := [];
    var index := 0;
    while index < |original| - 1
      invariant 0 <= index <= |original| - 1
      invariant |result| == 2 * index
      invariant forall i :: 0 <= i < index ==> result[2 * i] == original[i]
      invariant forall i :: 0 <= i < index ==> result[2 * i + 1] == Mediant(original[i], original[i + 1])
    {
      var first := original[index];
      var second := original[index + 1];
      result := result + [first];
      result := result + [Mediant(first, second)];
      index := index + 1;
    }
    result := result + [original[|original| - 1]];
    RefineUnique(Mediant, original, result);
  }

  /** `1/1` and `i/1`. */
  function Start(): (s: seq<Fraction>)
    ensures |s| == 2
  {
    var one, complex := FromPair((1, 0)), FromPair((0, 1));
    [Fractions.New(one, one), Fractions.New(complex, one)]
  }

  /** The loop `for _ in 1..n` runs `n − 1` times, and not at all when `n <= 1`. */
  function Rounds(n: nat): (k: nat)
    ensures n >= 1 ==> k + 1 == n
    ensures n == 0 ==> k == 0
  {
    if n >= 1 then n - 1 else 0
  }

  /** The program's main loop for a command-line argument `n` (an unsigned byte). */
  method ComplexSequence(n: nat) returns (current: seq<Fraction>)
    requires n < 256
    ensures current == Iterate(Mediant, Start(), Rounds(n))
    ensures |current| == Pow2(Rounds(n)) + 1
    ensures current[0] == Start()[0] && current[|current| - 1] == Start()[1]
    ensures Chain(Neighbours, current)
  {
    var start := Start();
    current := start;
    var round := 1;
    while round < n
      invariant 1 <= round <= if n >= 1 then n else 1
      invariant current == Iterate(Mediant, start, round - 1)
    {
      current := Mediants(current);
      round := round + 1;
    }
    assert round - 1 == Rounds(n);
    ComplexRounds(Rounds(n));
  }

  // ----- The invariant of the rounds -----

  /** A positive ordinary integer. */
  predicate PositiveInteger(g: Gaussian) {
    g.im == 0 && g.re >= 1
  }

  /** Both components non-negative. */
  predicate FirstQuadrant(g: Gaussian) {
    g.re >= 0 && g.im >= 0
  }

  /** The cross determinant `b·c − a·d` of `a/b` and `c/d`. */
  function Determinant(x: Fraction, y: Fraction): Gaussian {
    Sub(Mul(x.denominator, y.numerator), Mul(x.numerator, y.denominator))
  }

  predicate Shaped(x: Fraction) {
    FirstQuadrant(x.numerator) && PositiveInteger(x.denominator)
  }

  /** What every two neighbours of the sequence satisfy. */
  predicate Neighbours(x: Fraction, y: Fraction) {
    Shaped(x) && Shaped(y) && Determinant(x, y) == New(-1, 1)
  }

  lemma MediantComponents(x: Fraction, y: Fraction)
    ensures Mediant(x, y) == Fractions.New(Add(x.numerator, y.numerator), Add(x.denominator, y.denominator))
  {
    GaussianRingOps(x.numerator, y.numerator);
    GaussianRingOps(x.denominator, y.denominator);
  }

  lemma SubOfCommonSummand(a: Gaussian, b: Gaussian, c: Gaussian)
    ensures Sub(Add(a, b), Add(a, c)) == Sub(b, c)
    ensures Sub(Add(b, a), Add(c, a)) == Sub(b, c)
  {
  }

  /** The mediant has the same determinant with either parent as the parents with each other. */
  lemma MediantDeterminant(x: Fraction, y: Fraction)
    ensures Determinant(x, Mediant(x, y)) == Determinant(x, y)
    ensures Determinant(Mediant(x, y), y) == Determinant(x, y)
  {
    var p, q, r, s := x.numerator, x.denominator, y.numerator, y.denominator;
    MediantComponents(x, y);
    MulLaws(q, p, r);
    MulLaws(p, q, s);
    MulLaws(r, q, s);
    MulLaws(s, p, r);
    MulLaws(q, p, p);
    MulLaws(r, s, s);
    MulLaws(Add(q, s), r, r);
    MulLaws(Add(p, r), s, s);
    MulLaws(s, p, p);
    MulLaws(r, q, q);
    SubOfCommonSummand(Mul(p, q), Mul(q, r), Mul(p, s));
    SubOfCommonSummand(Mul(r, s), Mul(q, r), Mul(p, s));
  }

  /** Inserting a mediant between neighbours gives two pairs of neighbours. */
  lemma MediantNeighbours(x: Fraction, y: Fraction)
    requires Neighbours(x, y)
    ensures Neighbours(x, Mediant(x, y)) && Neighbours(Mediant(x, y), y)
  {
    MediantComponents(x, y);
    MediantDeterminant(x, y);
  }

  lemma MediantKeepsNeighbours()
    ensures forall a, b :: Neighbours(a, b) ==> Neighbours(a, Mediant(a, b)) && Neighbours(Mediant(a, b), b)
  {
    forall a, b | Neighbours(a, b)
      ensures Neighbours(a, Mediant(a, b)) && Neighbours(Mediant(a, b), b)
    {
      MediantNeighbours(a, b);
    }
  }

  /** The seeds `1/1` and `i/1` are neighbours: `1·i − 1·1 == −1 + i`. */
  lemma StartNeighbours()
    ensures Neighbours(Start()[0], Start()[1])
  {
    SeedDeterminant();
    SameComponents(Determinant(Start()[0], Start()[1]), New(-1, 1));
    SeedsShaped();
  }

  lemma SeedsShaped()
    ensures Shaped(Start()[0]) && Shaped(Start()[1])
  {
  }

  lemma SeedDeterminant()
    ensures Determinant(Start()[0], Start()[1]).re == -1
    ensures Determinant(Start()[0], Start()[1]).im == 1
  {
  }

  lemma SameComponents(a: Gaussian, b: Gaussian)
    requires a.re == b.re && a.im == b.im
    ensures a == b
  {
  }

  /** Any number of rounds from `[1/1, i/1]`. */
  lemma ComplexRounds(k: nat)
    ensures |Iterate(Mediant, Start(), k)| == Pow2(k) + 1
    ensures Iterate(Mediant, Start(), k)[0] == Start()[0]
    ensures Iterate(Mediant, Start(), k)[Pow2(k)] == Start()[1]
    ensures Chain(Neighbours, Iterate(Mediant, Start(), k))
  {
    StartNeighbours();
    NeighbourRounds(Start(), k);
  }

  /** Any number of rounds from two neighbours keeps the invariant and the endpoints. */
  lemma {:induction false} NeighbourRounds(s: seq<Fraction>, k: nat)
    requires |s| == 2 && Neighbours(s[0], s[1])
    ensures |Iterate(Mediant, s, k)| == Pow2(k) + 1
    ensures Iterate(Mediant, s, k)[0] == s[0]
    ensures Iterate(Mediant, s, k)[Pow2(k)] == s[1]
    ensures Chain(Neighbours, Iterate(Mediant, s, k))
  {
    MediantKeepsNeighbours();
    IterateKeepsChain(Mediant, Neighbours, s, k);
    IterateShape(Mediant, s, k);
  }

  /** Every element of a chain of neighbours has a positive integer denominator. */
  lemma ChainShaped(s: seq<Fraction>)
    requires Chain(Neighbours, s) && |s| >= 2
    ensures forall i :: 0 <= i < |s| ==> Shaped(s[i])
  {
    forall i | 0 <= i < |s|
      ensures Shaped(s[i])
    {
      if i < |s| - 1 {
        assert Neighbours(s[i], s[i + 1]);
      } else {
        assert Neighbours(s[i - 1], s[i]);
      }
    }
  }

  /** Two rounds from `[1/1, i/1]` give `1/1, (2+i)/3, (1+i)/2, (1+2i)/3, i/1`. */
  lemma TwoRounds()
    ensures Iterate(Mediant, Start(), 2) == [
      Fractions.New(New(1, 0), New(1, 0)), Fractions.New(New(2, 1), New(3, 0)),
      Fractions.New(New(1, 1), New(2, 0)), Fractions.New(New(1, 2), New(3, 0)),
      Fractions.New(New(0, 1), New(1, 0))]
  {
    var s := Start();
    var a, b := s[0], s[1];
    var m := Mediant(a, b);
    RefineOfTwo(Mediant, a, b);
    RefineOfThree(Mediant, a, m, b);
    MediantComponents(a, b);
    MediantComponents(a, m);
    MediantComponents(m, b);
  }
}
