/**
 * Random draws made explicit. The simulation's integer draws (rnd.randint,
 * rnd.choice, np.random.choice) are given as a raw natural number that is
 * reduced into the drawn range, so every outcome of the original draw is
 * the value of some raw number and every raw number gives an outcome.
 */
module Draws {

  /** rnd.randint(lo, hi): an integer in the closed range [lo, hi]. */
  function RandInt(lo: int, hi: int, d: nat): (v: int)
    requires lo <= hi
    ensures lo <= v <= hi
  {
    lo + d % (hi - lo + 1)
  }

  /** Every value of the range is drawn by some raw number. */
  lemma RandIntReachesAll(lo: int, hi: int, v: int)
    requires lo <= v <= hi
    ensures RandInt(lo, hi, (v - lo) as nat) == v
  {
    assert (v - lo) % (hi - lo + 1) == v - lo;
  }

  /** rnd.choice(xs): an element of a non-empty sequence. */
  function Choice<T>(xs: seq<T>, d: nat): (x: T)
    requires |xs| > 0
    ensures x in xs
  {
    xs[d % |xs|]
  }

  /** Every element of the sequence is chosen by some raw number. */
  lemma ChoiceReachesAll<T>(xs: seq<T>, i: nat)
    requires i < |xs|
    ensures Choice(xs, i) == xs[i]
  {
    assert i % |xs| == i;
  }
}
