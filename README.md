# complex-farey in Dafny

This is a model of the exact arithmetic in the `complex-farey` library, with proofs about it.
The library has four parts:

- **Integer gcd** (`src/gcd.rs`): Euclid's recursion with Rust's truncating `%`.
- **Gaussian integers** (`src/gaussian.rs`): numbers `re + im·i` with
  - sum, negation, difference and complex product;
  - the norm and a zero test;
  - a quotient/remainder, built by scaling with the conjugate of the divisor and dividing each component by its norm;
  - `/` and `%` on top of that quotient/remainder, and a recursive gcd;
  - the conversions from a base value and from a pair;
  - a three-branch `Display`.
- **Two fraction types** (`src/fraction/mod.rs` and `src/farey/mod.rs`). Both are numerator/denominator pairs that are never reduced. Each has a constructor, the Farey mediant, a cross-multiplied sum and a component-wise product. The first one also has negation, subtraction and `Display`.
- **Two example programs** (`examples/classic.rs` and `examples/complex.rs`). Each refines a list by inserting the mediant between every two neighbours, and repeats that:
  - `classic.rs` repeats it five times from `[0/1, 1/1]` over the integers;
  - `complex.rs` repeats it `max(n − 1, 0)` times from `[1/1, i/1]` over the Gaussian integers.

Module layout:

| file | module | models |
|---|---|---|
| `int_arith.dfy` | `IntArith` | Rust's truncating `/` and `%` (`TDiv`, `TRem`); integer divisibility |
| `gcd.dfy` | `IntGcd` | `src/gcd.rs` |
| `text.dfy` | `Text` | decimal rendering of the base integers, and a parser that inverts it |
| `gaussian.dfy` | `GaussianInts` | `src/gaussian.rs` as written, including its gcd (with a fuel bound) |
| `gaussian_euclid.dfy` | `GaussianEuclid` | the corrected division with remainder and gcd (see Findings) |
| `rings.dfy` | `Rings` | the trait bounds `Add + Mul + Neg` as a dictionary of operations, for `int` and for `Gaussian` |
| `fraction.dfy` | `Fractions` | `src/fraction/mod.rs` |
| `farey.dfy` | `Farey` | `src/farey/mod.rs` |
| `refinement.dfy` | `Refinement` | the mediant refinement step, shared by both examples |
| `classic_example.dfy` | `ClassicExample` | `examples/classic.rs` |
| `complex_example.dfy` | `ComplexExample` | `examples/complex.rs` |

Design notes:

- The base types are unbounded integers. Rust's `/` and `%` truncate toward zero, so they are written out as `IntArith.TDiv` and `IntArith.TRem`.
- The generic fraction types take their base type's operations as a `Rings.Ring<T>` value.
- Each example's `mediants` is an imperative method. It builds the result by appending in a loop, and it is proved equal to the functional `Refinement.Refine`.
- Each example's main loop is a method proved equal to `Refinement.Iterate`. The properties of the resulting sequences are proved about `Iterate`.

## Model

| member | source | states |
|---|---|---|
| IntArith.TDiv | src/gaussian.rs:43 | Rust's `/` on the base integers, rounding toward zero; requires a non-zero divisor and has no contract of its own: `TDivRem` ties it to `TRem` |
| IntArith.TRem | src/gcd.rs:12 | Rust's `%`: the remainder is smaller in magnitude than the divisor and has the sign of the dividend (or is 0) |
| IntArith.TDivRem | src/gaussian.rs:43-44 | Rust's `/` and `%` satisfy `a == b·(a / b) + a % b` |
| IntGcd.Gcd | src/gcd.rs:8-14 | `gcd(a, 0) == a`, else `gcd(b, a % b)`. The magnitude of `b` decreases, so it terminates. The result is 0 exactly for `gcd(0, 0)`, and it is non-negative for non-negative arguments |
| IntGcd.GcdDivides | src/gcd.rs:8-14 | the result divides both arguments |
| IntGcd.GcdGreatest | src/gcd.rs:8-14 | every common divisor of the arguments divides the result |
| IntGcd.GcdIsGreatestInMagnitude | src/gcd.rs:8-14 | unless both arguments are 0, no common divisor is larger in magnitude than the result |
| IntGcd.GcdOfUnimodular | src/gcd.rs:8-14 | non-negative `a`, `b` with `a·s + b·t == 1` have `gcd(a, b) == 1` |
| IntGcd.GcdCanBeNegative | src/gcd.rs:9-13 | the sign is not normalised: `gcd(4, -6) == -2` and `gcd(-4, 0) == -4` |
| IntGcd.GcdTestVector | src/gcd.rs:34-37 | `gcd(37, 51) == 1` |
| Text.IntToString | src/gaussian.rs:173 | the text of a base integer is non-empty, all digits except a leading `-`; `IntToStringRoundTrip` inverts it |
| Text.IntToStringRoundTrip | src/gaussian.rs:171-179 | the decimal text of a base integer, which every `Display` here uses, parses back to that integer |
| GaussianInts.New | src/gaussian.rs:14-16 | no contract: stores both parts as given; every other constructor and operation is built on it |
| GaussianInts.FromInt | src/gaussian.rs:182-190 | no contract; properties in `Conversions` |
| GaussianInts.FromPair | src/gaussian.rs:192-200 | no contract; properties in `Conversions` |
| GaussianInts.Zero | src/gaussian.rs:73-75 | no contract; `IsZero` holds exactly of it and `AddLaws` makes it neutral |
| GaussianInts.Add | src/gaussian.rs:88-90 | no contract; properties in `AddLaws`, `SubLaws` and `Conversions` |
| GaussianInts.Neg | src/gaussian.rs:113-115 | no contract; `AddLaws` makes it the additive inverse and `SubLaws` an involution |
| GaussianInts.Sub | src/gaussian.rs:124-126 | no contract; properties in `SubLaws` |
| GaussianInts.Mul | src/gaussian.rs:99-104 | no contract; properties in `MulLaws`, `NormLaws` and `Conversions` |
| GaussianInts.Div | src/gaussian.rs:141-145 | requires a non-zero divisor, no ensures of its own; properties in `DivRemIdentity`, `DivExact` and `ArithmeticTestVectors` |
| GaussianInts.Rem | src/gaussian.rs:160-164 | requires a non-zero divisor, no ensures of its own; properties in `DivRemIdentity`, `DivExact` and `RemOfSmaller` |
| GaussianInts.GcdFuel | src/gaussian.rs:61-67 | no contract; properties in `GcdFuelMonotone`, `GcdCommonDivisor`, `GcdTestVector`, `GcdResultNeedNotDivide` and `GcdDiverges` |
| GaussianInts.Show | src/gaussian.rs:171-179 | no contract; properties in `ShowRoundTrip`, `ShowHasNoSlash` and `ShowNegativeImaginary` |
| GaussianInts.IsZero | src/gaussian.rs:73-79 | `is_zero` holds exactly of `zero()`, i.e. when both components are 0 |
| GaussianInts.Norm | src/gaussian.rs:23-25 | `re² + im²` is non-negative and is 0 exactly for zero |
| GaussianInts.NormLaws | src/gaussian.rs:23-25 | the norm is multiplicative, conjugation keeps it, and `x·conj(x)` is the norm |
| GaussianInts.AddLaws | src/gaussian.rs:88-90 | component-wise sum: commutative, associative, with neutral zero and inverse `neg` |
| GaussianInts.SubLaws | src/gaussian.rs:113-126 | `sub(x, y) == add(x, neg(y))` is the component-wise difference and inverts `add`; `neg` is an involution |
| GaussianInts.MulLaws | src/gaussian.rs:99-104 | `(ac − bd, ad + bc)` is commutative and associative, distributes over sum and difference, and has unit 1 |
| GaussianInts.Conversions | src/gaussian.rs:182-200 | `From(t) == (t, 0)` and `From((x, y)) == (x, y)`. `From` on base values keeps sums, products, the norm and zero-ness |
| GaussianInts.QuoRem | src/gaussian.rs:38-47 | with `a + bi = self·conj(rhs)` and `n = norm(rhs) > 0`: `a == q.re·n + r.re`, `b == q.im·n + r.im`, each `|r.*| < n` with the sign of its dividend |
| GaussianInts.DivRemIdentity | src/gaussian.rs:141-164 | `/` and `%` are the two halves of `quo_rem`. `q·n + r == self·conj(rhs)`, and `r == (self − q·rhs)·conj(rhs)` |
| GaussianInts.DivExact | src/gaussian.rs:141-145 | exact division: `(q·y) / y == q` and `(q·y) % y == 0` |
| GaussianInts.RemOfSmaller | src/gaussian.rs:38-47 | when `norm(x) < norm(y)` the remainder is `x·conj(y)`, whose norm is `norm(x)·norm(y)` |
| GaussianInts.ArithmeticTestVectors | src/gaussian.rs:228-259 | `(1,0)+(0,1) == (1,1)`, `(1,2)·(3,4) == (-5,10)`, `5 / (2−i) == 2+i` |
| GaussianInts.GcdFuelMonotone | src/gaussian.rs:61-67 | a gcd computation that finishes within some number of steps gives the same answer with any larger allowance |
| GaussianInts.GcdCommonDivisor | src/gaussian.rs:61-67 | when the recursion finishes, every common divisor of the arguments divides its result |
| GaussianInts.GcdTestVector | src/gaussian.rs:261-270 | `gcd(5, 2+i) == 2+i`, after one step |
| GaussianInts.GcdResultNeedNotDivide | src/gaussian.rs:61-67 | `gcd(1, 1+i)` returns `1−i`, which does not divide 1 |
| GaussianInts.GcdDiverges | src/gaussian.rs:61-67 | when `1 < norm(x) < norm(y)` over unbounded integers the recursion never returns, whatever the step allowance (with fixed widths the growing norms overflow) |
| GaussianInts.GcdDivergesExample | src/gaussian.rs:61-67 | `gcd(1+i, 2)` never returns a result (over unbounded integers, for any step allowance) |
| GaussianInts.ShowRoundTrip | src/gaussian.rs:171-179 | each of the three display forms (`re`, `<im>i`, `<re>+<im>i`) reads back as the value shown |
| GaussianInts.ShowHasNoSlash | src/gaussian.rs:171-179 | display text never contains `/` |
| GaussianInts.ShowNegativeImaginary | src/gaussian.rs:177 | `3 − 2i` is shown as `3+-2i` |
| GaussianEuclid.NearestQuoRem | src/gaussian.rs:38-47 | corrected division: `x == q·y + r` with `2·norm(r) <= norm(y)` |
| GaussianEuclid.NearestAgreesOnExactDivision | src/gaussian.rs:141-145 | on exact division the corrected quotient is the library's quotient, and the remainder is 0 |
| GaussianEuclid.EuclidGcd | src/gaussian.rs:61-67 | corrected gcd over `NearestQuoRem`, terminating because the divisor's norm decreases; no ensures of its own; properties in `EuclidGcdDivides` and `EuclidGcdGreatest` |
| GaussianEuclid.EuclidGcdDivides | src/gaussian.rs:61-67 | corrected gcd (terminates by decreasing norm): the result divides both arguments |
| GaussianEuclid.EuclidGcdGreatest | src/gaussian.rs:61-67 | corrected gcd: every common divisor of the arguments divides the result |
| GaussianEuclid.EuclidGcdTestVector | src/gaussian.rs:261-270 | the corrected gcd keeps the library's test vector `gcd(5, 2+i) == 2+i` |
| GaussianEuclid.EuclidGcdOfOneAndOnePlusI | src/gaussian.rs:61-67 | corrected `gcd(1, 1+i) == −i`, a unit |
| GaussianEuclid.EuclidGcdOfOnePlusIAndTwo | src/gaussian.rs:61-67 | corrected `gcd(1+i, 2) == −1−i`, an associate of `1+i` |
| Fractions.New | src/fraction/mod.rs:16-21 | both components are stored as given: no reduction, no zero-denominator check |
| Fractions.FromPair | src/fraction/mod.rs:111-114 | `From((n, d))` is `new(n, d)` |
| Fractions.Mediant | src/fraction/mod.rs:28-33 | no contract; properties in `IntComponents` and `MediantBetween` |
| Fractions.Add | src/fraction/mod.rs:42-47 | no contract; properties in `IntComponents` and `AddValue` |
| Fractions.Mul | src/fraction/mod.rs:56-61 | no contract; properties in `IntComponents` and `MulValue` |
| Fractions.Neg | src/fraction/mod.rs:70-72 | no contract; properties in `IntComponents` and `NegValue` |
| Fractions.Sub | src/fraction/mod.rs:81-83 | no contract; properties in `IntComponents` and `SubValue` |
| Fractions.Show | src/fraction/mod.rs:104-106 | no contract; properties in `ShowRoundTrip`, `IntShowRoundTrip`, `GaussianShowRoundTrip` and `ShowExamples` |
| Fractions.IntComponents | src/fraction/mod.rs:28-83 | over the integers: mediant `(p+r)/(q+s)`, sum `(ad+bc)/(bd)`, product `(ac)/(bd)`, negation `(−a)/b`, difference `(ad−bc)/(bd)` |
| Fractions.AddValue | src/fraction/mod.rs:42-47 | the sum has the sum of the rational values, and a non-zero denominator |
| Fractions.MulValue | src/fraction/mod.rs:56-61 | the product has the product of the rational values |
| Fractions.NegValue | src/fraction/mod.rs:70-72 | negation keeps the denominator, negates the value, and `neg(neg(x)) == x` |
| Fractions.SubValue | src/fraction/mod.rs:81-83 | `sub` as `add(self, neg(rhs))` has the difference of the values |
| Fractions.MediantBetween | src/fraction/mod.rs:28-33 | with positive denominators, the mediant of `x < y` lies strictly between them |
| Fractions.NoReduction | src/fraction/mod.rs:6-10 | equality is structural: `1/2 != 2/4` although their values agree |
| Fractions.IntTestVectors | src/fraction/mod.rs:134-183 | `(1,2).into() == new(1,2)`, `1/2 + 1/3 == 5/6`, `2/3 · 5/7 == 10/21`, mediant of `1/2` and `1/3` is `2/5` |
| Fractions.ShowRoundTrip | src/fraction/mod.rs:100-107 | `"<numerator>/<denominator>"` splits back at its first slash into both parts, for any base type whose own text is slash-free and parses back |
| Fractions.IntShowRoundTrip | src/fraction/mod.rs:100-107 | integer fractions read back from their display text |
| Fractions.GaussianShowRoundTrip | src/fraction/mod.rs:100-107 | Gaussian fractions read back from their display text |
| Fractions.ShowExamples | src/fraction/mod.rs:104-106 | `1/2` prints as `1/2`, and `(1+i)/2` as `1+1i/2` |
| Farey.New | src/farey/mod.rs:12-17 | both components are stored as given |
| Farey.FromPair | src/farey/mod.rs:62-65 | `From((n, d))` is `new(n, d)` |
| Farey.Mediant | src/farey/mod.rs:24-29 | no contract; properties in `AgreesWithGeneral` and `IntComponents` |
| Farey.Add | src/farey/mod.rs:38-43 | no contract; properties in `AgreesWithGeneral` and `IntComponents` |
| Farey.Mul | src/farey/mod.rs:52-57 | no contract; properties in `AgreesWithGeneral` and `IntComponents` |
| Farey.AgreesWithGeneral | src/farey/mod.rs:24-57 | mediant, sum and product agree with those of `src/fraction/mod.rs`, for every base type |
| Farey.IntComponents | src/farey/mod.rs:24-57 | over the integers: mediant `(p+r)/(q+s)`, sum `(ad+bc)/(bd)`, product `(ac)/(bd)` |
| Farey.NoReduction | src/farey/mod.rs:5-9 | equality is structural: `1/2 · 2/2 == 2/4 != 1/2` |
| Farey.IntTestVectors | src/farey/mod.rs:85-134 | the same four test vectors as the general fraction type |
| Refinement.Refine | examples/complex.rs:32-50 | a round maps a non-empty list of length L to one of length 2L − 1 with the same first and last element |
| Refinement.RefineAt | examples/complex.rs:35-47 | `result[2i] == original[i]` and `result[2i+1] == mediant(original[i], original[i+1])` |
| Refinement.RefineUnique | examples/complex.rs:32-50 | those index properties determine the round's result completely |
| Refinement.Iterate | examples/complex.rs:22-25 | k rounds of `Refine`; its own contract only says the result is non-empty; properties in `IterateShape` and `IterateKeepsChain` |
| Refinement.IterateShape | examples/complex.rs:22-25 | after k rounds a list of length L has `(L − 1)·2^k + 1` elements and keeps its endpoints |
| Refinement.RefineKeepsChain | examples/complex.rs:32-50 | a relation between neighbours that survives inserting a mediant survives a round |
| Refinement.IterateKeepsChain | examples/complex.rs:22-25 | such a relation survives any number of rounds |
| ClassicExample.Mediants | examples/classic.rs:16-34 | the loop builds a list of length 2L − 1 with the originals at even and the mediants at odd positions, which is the refinement |
| ClassicExample.Start | examples/classic.rs:4 | the two seeds `0/1` and `1/1`; `ClassicRounds` shows they are Farey neighbours |
| ClassicExample.ClassicSequence | examples/classic.rs:3-9 | five rounds from `[0/1, 1/1]` give 33 fractions from `0/1` to `1/1`. Neighbours `a/b, c/d` have `bc − ad == 1`, every fraction is in lowest terms with positive denominator, and the list is strictly increasing |
| ClassicExample.MediantNeighbours | examples/classic.rs:24 | the mediant of Farey neighbours is a Farey neighbour of both |
| ClassicExample.NeighboursReduced | examples/classic.rs:24 | both members of a pair of Farey neighbours are in lowest terms |
| ClassicExample.NeighboursIncrease | examples/classic.rs:24 | the left neighbour has the smaller value |
| ClassicExample.ChainIncreasing | examples/classic.rs:6-9 | along a chain of neighbours the values strictly increase between any two positions |
| ClassicExample.ChainReduced | examples/classic.rs:6-9 | every element of a chain of neighbours is in lowest terms, has a positive denominator, and the chain is sorted |
| ClassicExample.ClassicRounds | examples/classic.rs:4-9 | k rounds from `[0/1, 1/1]` give `2^k + 1` fractions, all neighbours Farey neighbours |
| ClassicExample.ClassicShape | examples/classic.rs:4-9 | five rounds give 33 fractions, the first `0/1` and the last `1/1` |
| ComplexExample.Mediants | examples/complex.rs:32-50 | the loop builds a list of length 2L − 1 with the originals at even and the mediants at odd positions, which is the refinement |
| ComplexExample.Start | examples/complex.rs:14-20 | the two seeds `1/1` and `i/1`; `StartNeighbours` shows they satisfy the invariant |
| ComplexExample.Rounds | examples/complex.rs:23 | `for _ in 1..n` runs `n − 1` times, and none when `n` is 0 |
| ComplexExample.ComplexSequence | examples/complex.rs:11-25 | the main loop gives `2^rounds + 1` fractions from `1/1` to `i/1`. In every neighbouring pair `b·c − a·d == −1 + i`, denominators are positive integers and numerators lie in the first quadrant |
| ComplexExample.MediantDeterminant | examples/complex.rs:40 | a mediant has the same cross determinant with each parent as the parents have with each other |
| ComplexExample.MediantNeighbours | examples/complex.rs:40 | the mediant keeps the neighbour invariant on both sides |
| ComplexExample.StartNeighbours | examples/complex.rs:14-20 | the seeds `1/1` and `i/1` satisfy the invariant, with determinant `−1 + i` |
| ComplexExample.NeighbourRounds | examples/complex.rs:22-25 | any number of rounds from two neighbours keeps the invariant and the endpoints |
| ComplexExample.ComplexRounds | examples/complex.rs:14-25 | k rounds from `[1/1, i/1]` give `2^k + 1` fractions that keep the invariant, starting at `1/1` and ending at `i/1` |
| ComplexExample.ChainShaped | examples/complex.rs:22-25 | every element of such a chain has a positive integer denominator and a first-quadrant numerator |
| ComplexExample.TwoRounds | examples/complex.rs:14-25 | two rounds give `1/1, (2+i)/3, (1+i)/2, (1+2i)/3, i/1` |

## Left out

- Fixed-width integers: overflow, wrap-around and debug-mode panics are not modelled. This includes the `i8::MIN % -1` trap in `gcd` and the `u8`/`u64` instances used by the tests and by `classic.rs`. Every base type is an unbounded integer, and the unsigned widths are the calls with non-negative arguments. The test vectors here are far from any bound.
- The ten macro instances (`impl_for!`, `impl_from!`, `impl_from_tuple!`) are one definition each.
- The `num::Zero` trait is modelled directly as `GaussianInts.Zero` and `GaussianInts.IsZero`.
- The unused `Gcd` bound on the general `Fraction` is dropped.
- The `Clone`/`Copy` implementations of the general `Fraction` are omitted: the model has value semantics throughout.
- GaussianInts.GcdFuel: the library's gcd recursion has no bound. The model takes a step allowance and answers `None` when it runs out. By `GcdDiverges`, some inputs need more steps than any allowance.
- CLI parsing in `complex.rs` (clap) is left out: the argument `n` is a parameter of `ComplexExample.ComplexSequence`, restricted to the range of a `u8`.
- Both programs' `print!` loops are left out. The display text of the fractions is modelled by `Fractions.Show`.
- GaussianInts.QuoRem, Div, Rem: a zero divisor panics in Rust (the base type's `/` and `%` divide by the zero norm at `src/gaussian.rs:43-44`). This is the library's only failure path. The model requires a non-zero divisor instead of modelling the panic. `GcdFuel` never divides by zero, because it tests the divisor first.
- IntArith.TDiv, TRem: a zero divisor panics in Rust. The model requires a non-zero divisor; every caller here divides by a non-zero norm or, in `IntGcd.Gcd`, by a non-zero `b`.
- The `mediants` functions of both programs: an empty input list panics in Rust (`len() - 1` underflows and `last()` is `None`). The model requires a non-empty list instead of modelling the panic.
- `examples/classic.rs` imports the `Farey` fraction type, which derives only `Debug` and `PartialEq` (no `Copy`, `Clone` or `Display`). So the program as shown does not compile. The model follows its evident intent: the refinement over `Farey.Fraction<int>`.
- The decimal rendering of base integers (`Text.IntToString`) stands in for Rust's formatting of the base type. It is only used to fix the separators and branches of the two `Display` implementations.
- Gaussian fractions have no rational-value lemmas (`Fractions.Value` is for integer fractions only). The Gaussian rationals are not ordered, and nothing in the library divides them. Their properties are stated structurally in `ComplexExample`.
- The memory cost of `complex.rs` is not modelled: for large `n` the list has `2^(n−1) + 1` elements.

## Findings

| source | as written | input that shows it | evidently intended | confidence | as-written member | corrected member |
|---|---|---|---|---|---|---|
| src/gaussian.rs:44 | `%` returns the component-wise remainder of `self·conj(rhs)` by `norm(rhs)`, i.e. `(self − q·rhs)·conj(rhs)` rather than `self − q·rhs`, so the gcd built on it can return a non-divisor | `gcd(1, 1+i)` returns `1−i`, and `1−i` does not divide 1 | remainder `x − q·y`, so that the gcd divides both arguments (here a unit such as `−i`) | proved in the model; not executed | GaussianInts.GcdResultNeedNotDivide | GaussianEuclid.EuclidGcdDivides |
| src/gaussian.rs:61-67 | the recursion `rhs.gcd(self % rhs)` relies on the remainder shrinking, but when `1 < norm(x) < norm(y)` the remainder has norm `norm(x)·norm(y)`, so over unbounded integers the recursion never returns | `gcd(1+i, 2)` never returns a result: with unbounded integers the recursion is endless; with fixed widths it panics on overflow (`i64`: in the norm computed by the 9th call) | quotient rounded to the nearest Gaussian integer, remainder `x − q·y` with `2·norm(r) <= norm(y)`, so Euclid's recursion ends | proved in the model; not executed | GaussianInts.GcdDivergesExample | GaussianEuclid.NearestQuoRem |
