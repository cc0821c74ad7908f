/**
 * The refinement step both example programs iterate: between every two
 * neighbours of a non-empty list insert their mediant. The mediant is a
 * parameter, so the same definition serves the classic (integer) and the
 * complex (Gaussian) sequences.
 */
module Refinement {

  /** One round of refinement, the reference the example loops are proved against. */
  function Refine<F>(mediant: (F, F) -> F, s: seq<F>): (r: seq<F>)
    requires |s| > 0
    ensures |r| == 2 * |s| - 1
    ensures r[0] == s[0] && r[|r| - 1] == s[|s| - 1]
    decreases |s|
  {
    if |s| == 1 then s else [s[0], mediant(s[0], s[1])] + Refine(mediant, s[1..])
  }

  /** Even positions keep the old elements, odd positions hold the mediants of neighbours. */
  lemma {:induction false} RefineAt<F>(mediant: (F, F) -> F, s: seq<F>)
    requires |s| > 0
    ensures forall i :: 0 <= i < |s| ==> Refine(mediant, s)[2 * i] == s[i]
    ensures forall i :: 0 <= i < |s| - 1 ==> Refine(mediant, s)[2 * i + 1] == mediant(s[i], s[i + 1])
    decreases |s|
  {
    if |s| > 1 {
      var r, t := Refine(mediant, s), Refine(mediant, s[1..]);
      RefineAt(mediant, s[1..]);
      assert r == [s[0], mediant(s[0], s[1])] + t;
      forall i | 1 <= i < |s|
        ensures r[2 * i] == s[i]
      {
        assert r[2 * i] == t[2 * (i - 1)];
      }
      forall i | 1 <= i < |s| - 1
        ensures r[2 * i + 1] == mediant(s[i], s[i + 1])
      {
        assert r[2 * i + 1] == t[2 * (i - 1) + 1];
      }
    }
  }

  /** A list of the right length with the old elements and the mediants in place is the refinement. */
  lemma RefineUnique<F>(mediant: (F, F) -> F, s: seq<F>, r: seq<F>)
    requires |s| > 0 && |r| == 2 * |s| - 1
    requires forall i :: 0 <= i < |s| ==> r[2 * i] == s[i]
    requires forall i :: 0 <= i < |s| - 1 ==> r[2 * i + 1] == mediant(s[i], s[i + 1])
    ensures r == Refine(mediant, s)
  {
    var t := Refine(mediant, s);
    RefineAt(mediant, s);
    forall j | 0 <= j < |r|
      ensures r[j] == t[j]
    {
      var i := j / 2;
      if j % 2 == 0 {
        assert j == 2 * i;
        assert r[2 * i] == s[i] == t[2 * i];
      } else {
        assert j == 2 * i + 1;
        assert r[2 * i + 1] == mediant(s[i], s[i + 1]) == t[2 * i + 1];
      }
    }
  }

  function Pow2(k: nat): (p: nat)
    ensures p >= 1
  {
    if k == 0 then 1 else 2 * Pow2(k - 1)
  }

  /** `k` rounds of refinement. */
  function Iterate<F>(mediant: (F, F) -> F, s: seq<F>, k: nat): (r: seq<F>)
    requires |s| > 0
    ensures |r| > 0
  {
    if k == 0 then s else Refine(mediant, Iterate(mediant, s, k - 1))
  }

  /** After `k` rounds the `|s| - 1` gaps have become `(|s| - 1)·2^k`, and the endpoints are kept. */
  lemma {:induction false} IterateShape<F>(mediant: (F, F) -> F, s: seq<F>, k: nat)
    requires |s| > 0
    ensures |Iterate(mediant, s, k)| == (|s| - 1) * Pow2(k) + 1
    ensures Iterate(mediant, s, k)[0] == s[0]
    ensures Iterate(mediant, s, k)[|Iterate(mediant, s, k)| - 1] == s[|s| - 1]
  {
    if k > 0 {
      IterateShape(mediant, s, k - 1);
      DoubledGaps(|s| - 1, Pow2(k - 1));
    }
  }

  lemma DoubledGaps(gaps: int, p: int)
    ensures 2 * (gaps * p + 1) - 1 == gaps * (2 * p) + 1
  {
  }

  /** Every pair of neighbours is related by `related`. */
  predicate Chain<F>(related: (F, F) -> bool, s: seq<F>) {
    forall i :: 0 <= i < |s| - 1 ==> related(s[i], s[i + 1])
  }

  /** A neighbour relation that survives inserting a mediant survives a round of refinement. */
  lemma {:induction false} RefineKeepsChain<F>(mediant: (F, F) -> F, related: (F, F) -> bool, s: seq<F>)
    requires |s| > 0
    requires forall a, b :: related(a, b) ==> related(a, mediant(a, b)) && related(mediant(a, b), b)
    requires Chain(related, s)
    ensures Chain(related, Refine(mediant, s))
    decreases |s|
  {
    if |s| > 1 {
      RefineKeepsChain(mediant, related, s[1..]);
      var t := Refine(mediant, s[1..]);
      var r := Refine(mediant, s);
      assert related(s[0], s[1]);
      assert r == [s[0], mediant(s[0], s[1])] + t;
      forall i | 0 <= i < |r| - 1
        ensures related(r[i], r[i + 1])
      {
        if i >= 2 {
          assert r[i] == t[i - 2] && r[i + 1] == t[i - 1];
        }
      }
    }
  }

  /** And so it survives any number of rounds. */
  lemma {:induction false} IterateKeepsChain<F>(mediant: (F, F) -> F, related: (F, F) -> bool, s: seq<F>, k: nat)
    requires |s| > 0
    requires forall a, b :: related(a, b) ==> related(a, mediant(a, b)) && related(mediant(a, b), b)
    requires Chain(related, s)
    ensures Chain(related, Iterate(mediant, s, k))
  {
    if k > 0 {
      IterateKeepsChain(mediant, related, s, k - 1);
      RefineKeepsChain(mediant, related, Iterate(mediant, s, k - 1));
    }
  }

  lemma RefineOfTwo<F>(mediant: (F, F) -> F, x: F, y: F)
    ensures Refine(mediant, [x, y]) == [x, mediant(x, y), y]
  {
    assert [x, y][1..] == [y];
  }

  lemma RefineOfThree<F>(mediant: (F, F) -> F, x: F, y: F, z: F)
    ensures Refine(mediant, [x, y, z]) == [x, mediant(x, y), y, mediant(y, z), z]
  {
    assert [x, y, z][1..] == [y, z];
    RefineOfTwo(mediant, y, z);
  }
}
