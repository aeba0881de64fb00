/**
 The two random primitives the generators call, with the random source made an
 explicit argument: `u` is one abstract draw, a real in [0, 1). The weighted draw scales it
 as `random.choices` scales `random.random()`; the uniform draw is `floor(u * len)`.
 */
module Sampling {
  import opened Dicts

  /** Every draw of the random source lies in [0, 1). */
  ghost predicate IsRandomSource(rng: nat -> real)
  {
    forall t :: 0.0 <= rng(t) < 1.0
  }

  /**
   The index standing for `random.choice(population)` with a population of size `len`:
   `floor(u * len)`, which is below `len`. CPython maps its random bits to an index in
   another way, so only the range of the index is the source's.
   */
  function ChoiceIndex(len: nat, u: real): (i: nat)
    requires len > 0 && 0.0 <= u < 1.0
    ensures i < len
  {
    var t := len as real;
    ScaleBelow(u, t);
    var x := u * t;
    assert x < t;
    var k := x.Floor;
    assert k as real <= x;
    k
  }

  /**
   The index `bisect(cum_weights, x)` picks: the first index whose cumulative weight
   exceeds `x`. That is the one index `i` with `Sum(ws[..i]) <= x < Sum(ws[..i + 1])`,
   and its weight is positive.
   */
  function WeightedIndex(ws: seq<real>, x: real): (i: nat)
    requires forall j :: 0 <= j < |ws| ==> ws[j] >= 0.0
    requires 0.0 <= x < Sum(ws)
    ensures i < |ws| && ws[i] > 0.0
    ensures Sum(ws[..i]) <= x < Sum(ws[..i + 1])
  {
    if x < ws[0] then
      assert ws[..1] == [ws[0]];
      0
    else
      var i := WeightedIndex(ws[1..], x - ws[0]);
      assert ws[..i + 1] == [ws[0]] + ws[1..][..i];
      assert ws[..i + 2] == [ws[0]] + ws[1..][..i + 1];
      i + 1
  }

  /** `random.choices(population, weights=ws)[0]` for the draw `u`, as an index into the population. */
  function ChoicesIndex(ws: seq<real>, u: real): (i: nat)
    requires forall j :: 0 <= j < |ws| ==> ws[j] >= 0.0
    requires Sum(ws) > 0.0 && 0.0 <= u < 1.0
    ensures i < |ws| && ws[i] > 0.0
  {
    var total := Sum(ws);
    ScaleBelow(u, total);
    WeightedIndex(ws, u * total)
  }

  lemma ScaleBelow(u: real, t: real)
    requires 0.0 <= u < 1.0 && t > 0.0
    ensures 0.0 <= u * t < t
  {
    assert u * t < 1.0 * t;
  }

  /** Weighted choice among the keys of a count table: the key drawn has a positive count. */
  function PickWeighted<K(!new)>(d: Dict<K, nat>, u: real): (k: K)
    requires Valid(d) && Total(d) > 0 && 0.0 <= u < 1.0
    ensures k in d.m && d.m[k] > 0
  {
    var w := Weights(d);
    WeightsSum(d);
    d.keys[ChoicesIndex(w, u)]
  }

  /** Weighted choice among the keys of a table of positive reals. */
  function PickWeightedReal<K(!new)>(d: Dict<K, real>, u: real): (k: K)
    requires Valid(d) && d.keys != [] && 0.0 <= u < 1.0
    requires forall k :: k in d.m ==> d.m[k] > 0.0
    ensures k in d.m
  {
    var w := Values(d);
    assert w[0] > 0.0;
    SumPositive(w, 0);
    d.keys[ChoicesIndex(w, u)]
  }

  /** Uniform choice among the keys of a table: `random.choice(list(d.keys()))`. */
  function PickKey<K(!new), V>(d: Dict<K, V>, u: real): (k: K)
    requires Valid(d) && d.keys != [] && 0.0 <= u < 1.0
    ensures k in d.m
  {
    d.keys[ChoiceIndex(|d.keys|, u)]
  }
}
