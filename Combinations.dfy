/** The binary counter behind getNextCombination and the weights that
    computeProbability gives its assignments (BayesNetworkClassifier.java).

    An assignment of k varying nodes is a sequence of k booleans whose LAST
    element is the least significant bit, as the source's counter scans the
    node array from its end. */
module Combinations {
  import opened Wrappers

  function Pow2(k: nat): (r: nat)
    ensures r >= 1
  {
    if k == 0 then 1 else 2 * Pow2(k - 1)
  }

  /** The k-bit assignment that the counter holds after m increments. */
  function BitsOf(m: nat, k: nat): (b: seq<bool>)
    ensures |b| == k
  {
    if k == 0 then [] else BitsOf(m / 2, k - 1) + [m % 2 == 1]
  }

  /** The number an assignment stands for. */
  function ValueOf(b: seq<bool>): nat {
    if b == [] then 0 else 2 * ValueOf(b[..|b| - 1]) + (if b[|b| - 1] then 1 else 0)
  }

  /** Reading back the bits of a number below 2^k gives the number. */
  lemma {:induction false} ValueOfBitsOf(m: nat, k: nat)
    requires m < Pow2(k)
    ensures ValueOf(BitsOf(m, k)) == m
  {
    if k > 0 {
      ValueOfBitsOf(m / 2, k - 1);
      assert BitsOf(m, k)[..k - 1] == BitsOf(m / 2, k - 1);
    }
  }

  /** Every assignment is the bits of exactly one number below 2^k. */
  lemma {:induction false} BitsOfValueOf(b: seq<bool>)
    ensures ValueOf(b) < Pow2(|b|)
    ensures BitsOf(ValueOf(b), |b|) == b
  {
    if b != [] {
      var prefix := b[..|b| - 1];
      BitsOfValueOf(prefix);
      assert b == prefix + [b[|b| - 1]];
    }
  }

  /** The initial assignment: getNextCombination with doInit sets every
      node OFF, which is the number 0. */
  lemma {:induction false} BitsOfZero(k: nat)
    ensures BitsOf(0, k) == seq(k, _ => false)
  {
    if k > 0 {
      BitsOfZero(k - 1);
    }
  }

  /** One step of getNextCombination without doInit: the last OFF entry
      becomes ON and every entry after it OFF; None when every entry is
      already ON. */
  function Increment(b: seq<bool>): Option<seq<bool>> {
    if b == [] then None
    else if !b[|b| - 1] then Some(b[..|b| - 1] + [true])
    else match Increment(b[..|b| - 1])
      case None => None
      case Some(p) => Some(p + [false])
  }

  /** The counter counts: from the bits of m it steps to the bits of m + 1,
      and it stops exactly after the bits of 2^k - 1 (all ON). */
  lemma {:induction false} IncrementCounts(m: nat, k: nat)
    requires m < Pow2(k)
    ensures Increment(BitsOf(m, k)) == if m + 1 < Pow2(k) then Some(BitsOf(m + 1, k)) else None
  {
    if k > 0 {
      var b := BitsOf(m, k);
      Halves(m, k);
      assert b[..k - 1] == BitsOf(m / 2, k - 1) && b[k - 1] == (m % 2 == 1);
      if m % 2 == 1 {
        IncrementCounts(m / 2, k - 1);
        assert BitsOf(m + 1, k) == BitsOf(m / 2 + 1, k - 1) + [false];
      } else {
        assert BitsOf(m + 1, k) == BitsOf(m / 2, k - 1) + [true];
      }
    }
  }

  /** The arithmetic of one counter step on the number m below 2^k: its
      upper bits m / 2, and those of m + 1. */
  lemma Halves(m: nat, k: nat)
    requires 0 < k && m < Pow2(k)
    ensures m / 2 < Pow2(k - 1)
    ensures m % 2 == 1 ==> (m + 1) / 2 == m / 2 + 1 && (m + 1) % 2 == 0
    ensures m % 2 == 0 ==> (m + 1) / 2 == m / 2 && (m + 1) % 2 == 1 && m + 1 < Pow2(k)
    ensures m % 2 == 1 ==> (m + 1 < Pow2(k) <==> m / 2 + 1 < Pow2(k - 1))
  {
  }

  /** With every entry ON there is no next assignment. */
  lemma {:induction false} IncrementAllOn(b: seq<bool>)
    requires forall j :: 0 <= j < |b| ==> b[j]
    ensures Increment(b) == None
  {
    if b != [] {
      IncrementAllOn(b[..|b| - 1]);
    }
  }

  /** The scan from the end: when entry i is the last OFF entry, the next
      assignment turns it ON and every later entry OFF. */
  lemma {:induction false} IncrementAt(b: seq<bool>, i: nat)
    requires i < |b| && !b[i] && forall j :: i < j < |b| ==> b[j]
    ensures Increment(b) == Some(b[..i] + [true] + seq(|b| - i - 1, _ => false))
    decreases |b|
  {
    if i == |b| - 1 {
      assert b[..|b| - 1] + [true] == b[..i] + [true] + seq(|b| - i - 1, _ => false);
    } else {
      var front := b[..|b| - 1];
      IncrementAt(front, i);
      var tail := seq(|front| - i - 1, _ => false);
      assert b[|b| - 1] && Increment(b) == Some(front[..i] + [true] + tail + [false]);
      assert front[..i] == b[..i];
      assert tail + [false] == seq(|b| - i - 1, _ => false);
      assert front[..i] + [true] + tail + [false] == b[..i] + [true] + (tail + [false]);
    }
  }

  function Factor(on: bool, p: real): real {
    if on then p else 1.0 - p
  }

  /** The product computeProbability accumulates over the first i nodes:
      p for an ON node, 1 - p for an OFF node, multiplied in array order. */
  function WeightUpTo(b: seq<bool>, ps: seq<real>, i: nat): real
    requires |b| == |ps| && i <= |b|
  {
    if i == 0 then 1.0 else WeightUpTo(b, ps, i - 1) * Factor(b[i - 1], ps[i - 1])
  }

  /** The weight of an assignment of all the nodes. */
  function Weight(b: seq<bool>, ps: seq<real>): real
    requires |b| == |ps|
  {
    WeightUpTo(b, ps, |b|)
  }

  /** The weight of assignment number m of the first k nodes, read off the
      number itself: its lowest bit decides node k - 1. */
  function NumberWeight(m: nat, ps: seq<real>, k: nat): real
    requires k <= |ps|
  {
    if k == 0 then 1.0 else NumberWeight(m / 2, ps, k - 1) * Factor(m % 2 == 1, ps[k - 1])
  }

  /** The weights of the first n assignments of the first k nodes. */
  function PartialSum(ps: seq<real>, k: nat, n: nat): real
    requires k <= |ps| && n <= Pow2(k)
  {
    if n == 0 then 0.0 else PartialSum(ps, k, n - 1) + NumberWeight(n - 1, ps, k)
  }

  /** Adding the weight of the counter's assignment number n to the
      weights of the assignments before it. */
  lemma PartialSumStep(ps: seq<real>, n: nat, sum: real, w: real)
    requires n < Pow2(|ps|) && sum == PartialSum(ps, |ps|, n) && w == Weight(BitsOf(n, |ps|), ps)
    ensures sum + w == PartialSum(ps, |ps|, n + 1)
  {
    WeightOfBits(n, ps);
  }

  predicate AllProbabilities(ps: seq<real>) {
    forall i :: 0 <= i < |ps| ==> 0.0 <= ps[i] <= 1.0
  }

  lemma NonNegativeProduct(x: real, y: real)
    requires 0.0 <= x && 0.0 <= y
    ensures 0.0 <= x * y
  {
  }

  lemma MultiplyProbabilities(x: real, y: real)
    requires 0.0 <= x <= 1.0 && 0.0 <= y <= 1.0
    ensures 0.0 <= x * y <= 1.0
  {
    NonNegativeProduct(x, y);
    NonNegativeProduct(1.0 - x, y);
  }

  /** With probabilities as factors every weight is itself a probability. */
  lemma {:induction false} WeightInRange(b: seq<bool>, ps: seq<real>, i: nat)
    requires |b| == |ps| && i <= |b| && AllProbabilities(ps)
    ensures 0.0 <= WeightUpTo(b, ps, i) <= 1.0
  {
    if i > 0 {
      WeightInRange(b, ps, i - 1);
      assert 0.0 <= ps[i - 1] <= 1.0;
      MultiplyProbabilities(WeightUpTo(b, ps, i - 1), Factor(b[i - 1], ps[i - 1]));
    }
  }

  /** The two factors of a node add up to 1. */
  lemma FactorsSum(p: real)
    ensures Factor(false, p) + Factor(true, p) == 1.0
  {
  }

  lemma Distribute(w: real, f0: real, f1: real, a: real, b: real)
    requires a == w * f0 && b == w * f1 && f0 + f1 == 1.0
    ensures a + b == w
  {
    assert w * f0 + w * f1 == w * (f0 + f1);
  }

  /** Appending a 0 bit to the number j (giving 2j) multiplies its weight
      by the OFF factor of node k - 1. */
  lemma NumberWeightEven(ps: seq<real>, k: nat, j: nat)
    requires 0 < k <= |ps|
    ensures NumberWeight(2 * j, ps, k) == NumberWeight(j, ps, k - 1) * Factor(false, ps[k - 1])
  {
    assert (2 * j) / 2 == j && (2 * j) % 2 == 0;
  }

  /** Appending a 1 bit to the number j (giving 2j + 1) multiplies its
      weight by the ON factor of node k - 1. */
  lemma NumberWeightOdd(ps: seq<real>, k: nat, j: nat)
    requires 0 < k <= |ps|
    ensures NumberWeight(2 * j + 1, ps, k) == NumberWeight(j, ps, k - 1) * Factor(true, ps[k - 1])
  {
    assert (2 * j + 1) / 2 == j && (2 * j + 1) % 2 == 1;
  }

  /** Assignments 2j and 2j + 1 differ only in the bit of the last node, so
      together they weigh what assignment j of one node fewer weighs. */
  lemma PairWeight(ps: seq<real>, k: nat, j: nat)
    requires 0 < k <= |ps|
    ensures NumberWeight(2 * j, ps, k) + NumberWeight(2 * j + 1, ps, k) == NumberWeight(j, ps, k - 1)
  {
    NumberWeightEven(ps, k, j);
    NumberWeightOdd(ps, k, j);
    FactorsSum(ps[k - 1]);
    Distribute(NumberWeight(j, ps, k - 1), Factor(false, ps[k - 1]), Factor(true, ps[k - 1]),
               NumberWeight(2 * j, ps, k), NumberWeight(2 * j + 1, ps, k));
  }

  /** Summing the pairs: the first 2n assignments of k nodes weigh what the
      first n assignments of k - 1 nodes weigh. */
  lemma {:induction false} PairedSum(ps: seq<real>, k: nat, n: nat)
    requires 0 < k <= |ps| && n <= Pow2(k - 1)
    ensures PartialSum(ps, k, 2 * n) == PartialSum(ps, k - 1, n)
  {
    if n > 0 {
      var j := n - 1;
      PairedSum(ps, k, j);
      PairWeight(ps, k, j);
      assert PartialSum(ps, k, 2 * j + 2)
          == PartialSum(ps, k, 2 * j) + NumberWeight(2 * j, ps, k) + NumberWeight(2 * j + 1, ps, k);
      assert 2 * n == 2 * j + 2;
    }
  }

  /** The weights of all 2^k assignments sum to 1, whatever the factors:
      (1 - p) + p == 1 for every node. */
  lemma {:induction false} WeightsSumToOne(ps: seq<real>, k: nat)
    requires k <= |ps|
    ensures PartialSum(ps, k, Pow2(k)) == 1.0
  {
    if k == 0 {
      assert PartialSum(ps, 0, 1) == PartialSum(ps, 0, 0) + NumberWeight(0, ps, 0);
    } else {
      assert Pow2(k) == 2 * Pow2(k - 1);
      PairedSum(ps, k, Pow2(k - 1));
      WeightsSumToOne(ps, k - 1);
    }
  }

  /** The weight of the first i nodes depends only on their bits and
      probabilities. */
  lemma {:induction false} WeightUpToPrefix(b: seq<bool>, ps: seq<real>, b': seq<bool>, ps': seq<real>, i: nat)
    requires |b| == |ps| && |b'| == |ps'| && i <= |b| && i <= |b'|
    requires b[..i] == b'[..i] && ps[..i] == ps'[..i]
    ensures WeightUpTo(b, ps, i) == WeightUpTo(b', ps', i)
  {
    if i > 0 {
      assert b[i - 1] == b[..i][i - 1] && b'[i - 1] == b'[..i][i - 1];
      assert ps[i - 1] == ps[..i][i - 1] && ps'[i - 1] == ps'[..i][i - 1];
      WeightUpToPrefix(b, ps, b', ps', i - 1);
    }
  }

  lemma {:induction false} WeightOfPrefixBits(m: nat, ps: seq<real>, k: nat)
    requires k <= |ps|
    ensures WeightUpTo(BitsOf(m, k), ps[..k], k) == NumberWeight(m, ps, k)
  {
    if k > 0 {
      WeightOfPrefixBits(m / 2, ps, k - 1);
      WeightUpToPrefix(BitsOf(m, k), ps[..k], BitsOf(m / 2, k - 1), ps[..k - 1], k - 1);
    }
  }

  /** The product computeProbability forms for the counter's m-th
      assignment is the weight of the number m. */
  lemma WeightOfBits(m: nat, ps: seq<real>)
    ensures Weight(BitsOf(m, |ps|), ps) == NumberWeight(m, ps, |ps|)
  {
    WeightOfPrefixBits(m, ps, |ps|);
    assert ps[..|ps|] == ps;
  }
}
