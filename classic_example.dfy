/**
 * The classic example program: starting from `[0/1, 1/1]` it applies the
 * mediant refinement five times to the integer fractions of the `Farey`
 * module. The lemmas show what makes the result a Farey sequence: every
 * two neighbours `a/b`, `c/d` satisfy `b·c − a·d == 1`, from which every
 * fraction is in lowest terms and the list is strictly increasing.
 */
module ClassicExample {
  import opened Rings
  import opened Refinement
  import Farey
  import Fractions
  import IntGcd

  type Fraction = Farey.Fraction<int>

  function Mediant(x: Fraction, y: Fraction): Fraction {
    Farey.Mediant(IntRing, x, y)
  }

  /** One round: copy each element and follow it by its mediant with the next one. */
  method Mediants(original: seq<Fraction>) returns (result: seq<Fraction>)
    requires |original| > 0
    ensures |result| == 2 * |original| - 1
    ensures forall i :: 0 <= i < |original| ==> result[2 * i] == original[i]
    ensures forall i :: 0 <= i < |original| - 1 ==> result[2 * i + 1] == Mediant(original[i], original[i + 1])
    ensures result == Refine(Mediant, original)
  {
    result := [];
    var index := 0;
    while index < |original| - 1
      invariant 0 <= index <= |original| - 1
      invariant |result| == 2 * index
      invariant forall i :: 0 <= i < index ==> result[2 * i] == original[i]
      invariant forall i :: 0 <= i < index ==> result[2 * i + 1] == Mediant(original[i], original[i + 1])
    {
      var first := original[index];
      var second := original[index + 1];
      result := result + [first];
      result := result + [Mediant(first, second)];
      index := index + 1;
    }
    result := result + [original[|original| - 1]];
    RefineUnique(Mediant, original, result);
  }

  function Start(): (s: seq<Fraction>)
    ensures |s| == 2
  {
    [Farey.FromPair((0, 1)), Farey.FromPair((1, 1))]
  }

  /** The program's main loop: five rounds from `[0/1, 1/1]`. */
  method ClassicSequence() returns (current: seq<Fraction>)
    ensures current == Iterate(Mediant, Start(), 5)
    ensures |current| == 33
    ensures current[0] == Farey.New(0, 1) && current[32] == Farey.New(1, 1)
    ensures Chain(Neighbours, current)
    ensures forall i :: 0 <= i < |current| ==> current[i].denominator >= 1
    ensures forall i :: 0 <= i < |current| ==> IntGcd.Gcd(current[i].numerator, current[i].denominator) == 1
    ensures forall i, j :: 0 <= i < j < |current| ==> Value(current[i]) < Value(current[j])
  {
    current := Start();
    var round := 0;
    while round < 5
      invariant 0 <= round <= 5
      invariant current == Iterate(Mediant, Start(), round)
    {
      current := Mediants(current);
      round := round + 1;
    }
    ClassicShape();
    ClassicRounds(5);
    ChainReduced(current);
  }

  // ----- Farey neighbours -----

  /** Non-negative numerator, positive denominator. */
  predicate Positive(x: Fraction) {
    x.numerator >= 0 && x.denominator >= 1
  }

  /** `a/b` and `c/d` are Farey neighbours: `b·c − a·d == 1`. */
  predicate Neighbours(x: Fraction, y: Fraction) {
    Positive(x) && Positive(y) && x.denominator * y.numerator - x.numerator * y.denominator == 1
  }

  /** The rational value of a fraction with a non-zero denominator. */
  ghost function Value(x: Fraction): real
    requires x.denominator != 0
  {
    Fractions.Value(Farey.ToGeneral(x))
  }

  /** Inserting a mediant between neighbours gives two pairs of neighbours. */
  lemma MediantNeighbours(x: Fraction, y: Fraction)
    requires Neighbours(x, y)
    ensures Neighbours(x, Mediant(x, y)) && Neighbours(Mediant(x, y), y)
  {
    Farey.IntComponents(x, y);
    var p, q, r, s := x.numerator, x.denominator, y.numerator, y.denominator;
    assert q * (p + r) - p * (q + s) == q * r - p * s;
    assert (q + s) * r - (p + r) * s == q * r - p * s;
  }

  lemma MediantKeepsNeighbours()
    ensures forall a, b :: Neighbours(a, b) ==> Neighbours(a, Mediant(a, b)) && Neighbours(Mediant(a, b), b)
  {
    forall a, b | Neighbours(a, b)
      ensures Neighbours(a, Mediant(a, b)) && Neighbours(Mediant(a, b), b)
    {
      MediantNeighbours(a, b);
    }
  }

  /** Both members of a pair of neighbours are in lowest terms. */
  lemma NeighboursReduced(x: Fraction, y: Fraction)
    requires Neighbours(x, y)
    ensures IntGcd.Gcd(x.numerator, x.denominator) == 1
    ensures IntGcd.Gcd(y.numerator, y.denominator) == 1
  {
    var p, q, r, s := x.numerator, x.denominator, y.numerator, y.denominator;
    assert p * (-s) + q * r == 1;
    IntGcd.GcdOfUnimodular(p, q, -s, r);
    assert r * q + s * (-p) == 1;
    IntGcd.GcdOfUnimodular(r, s, q, -p);
  }

  /** The left neighbour has the smaller value. */
  lemma NeighboursIncrease(x: Fraction, y: Fraction)
    requires Neighbours(x, y)
    ensures Value(x) < Value(y)
  {
    Fractions.ValueLess(Farey.ToGeneral(x), Farey.ToGeneral(y));
  }

  /** A chain of neighbours is strictly increasing, not only from each element to the next. */
  lemma {:induction false} ChainIncreasing(s: seq<Fraction>, i: nat, j: nat)
    requires Chain(Neighbours, s) && i < j < |s|
    ensures s[i].denominator >= 1 && s[j].denominator >= 1
    ensures Value(s[i]) < Value(s[j])
    decreases j - i
  {
    assert Neighbours(s[i], s[i + 1]);
    NeighboursIncrease(s[i], s[i + 1]);
    if i + 1 < j {
      ChainIncreasing(s, i + 1, j);
    }
  }

  /** Every element of a chain of neighbours is in lowest terms with a positive denominator. */
  lemma ChainReduced(s: seq<Fraction>)
    requires Chain(Neighbours, s) && |s| >= 2
    ensures forall i :: 0 <= i < |s| ==> s[i].denominator >= 1
    ensures forall i :: 0 <= i < |s| ==> IntGcd.Gcd(s[i].numerator, s[i].denominator) == 1
    ensures forall i, j :: 0 <= i < j < |s| ==> Value(s[i]) < Value(s[j])
  {
    forall i | 0 <= i < |s|
      ensures s[i].denominator >= 1 && IntGcd.Gcd(s[i].numerator, s[i].denominator) == 1
    {
      if i < |s| - 1 {
        assert Neighbours(s[i], s[i + 1]);
        NeighboursReduced(s[i], s[i + 1]);
      } else {
        assert Neighbours(s[i - 1], s[i]);
        NeighboursReduced(s[i - 1], s[i]);
      }
    }
    forall i, j | 0 <= i < j < |s|
      ensures Value(s[i]) < Value(s[j])
    {
      ChainIncreasing(s, i, j);
    }
  }

  /** Any number of rounds from `[0/1, 1/1]` keeps all neighbours Farey neighbours. */
  lemma ClassicRounds(k: nat)
    ensures Chain(Neighbours, Iterate(Mediant, Start(), k))
    ensures |Iterate(Mediant, Start(), k)| == Pow2(k) + 1
  {
    assert Neighbours(Start()[0], Start()[1]);
    MediantKeepsNeighbours();
    IterateKeepsChain(Mediant, Neighbours, Start(), k);
    IterateShape(Mediant, Start(), k);
  }

  /** Five rounds give `2^5 + 1 == 33` fractions from `0/1` to `1/1`. */
  lemma ClassicShape()
    ensures |Iterate(Mediant, Start(), 5)| == 33
    ensures Iterate(Mediant, Start(), 5)[0] == Farey.New(0, 1)
    ensures Iterate(Mediant, Start(), 5)[32] == Farey.New(1, 1)
  {
    IterateShape(Mediant, Start(), 5);
    assert Pow2(5) == 32;
  }
}
