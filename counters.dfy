/**
 `collections.Counter` over a list: every distinct element with its number of
 occurrences, keys in order of first occurrence, and the totals of its counts over
 the keys that satisfy a condition.
 */
module Counters {
  import opened Dicts

  /** `Counter(xs)` */
  function CounterOf<T(!new)>(xs: seq<T>): (r: Dict<T, nat>)
    ensures Valid(r)
    ensures forall x :: x in r.m <==> x in xs
    ensures forall x :: x in r.m ==> r.m[x] == multiset(xs)[x]
  {
    if xs == [] then Empty()
    else
      var init, last := xs[..|xs| - 1], xs[|xs| - 1];
      assert xs == init + [last];
      Inc(CounterOf(init), last)
  }

  /** How many elements of `xs` satisfy `p`. */
  function CountWhere<T>(xs: seq<T>, p: T -> bool): nat
  {
    if xs == [] then 0 else CountWhere(xs[..|xs| - 1], p) + (if p(xs[|xs| - 1]) then 1 else 0)
  }

  /** The sum of the counts of the keys that satisfy `p`. */
  function SumWhere<T>(keys: seq<T>, m: map<T, nat>, p: T -> bool): nat
    requires forall k :: k in keys ==> k in m
  {
    if keys == [] then 0
    else SumWhere(keys[..|keys| - 1], m, p) + (if p(keys[|keys| - 1]) then m[keys[|keys| - 1]] else 0)
  }

  lemma {:induction false} SumWhereFrame<T>(keys: seq<T>, m1: map<T, nat>, m2: map<T, nat>, p: T -> bool)
    requires forall k :: k in keys ==> k in m1 && k in m2 && m1[k] == m2[k]
    ensures SumWhere(keys, m1, p) == SumWhere(keys, m2, p)
  {
    if keys != [] {
      SumWhereFrame(keys[..|keys| - 1], m1, m2, p);
    }
  }

  /** Raising the count of a key that occurs once raises the sum by as much when the key satisfies `p`. */
  lemma {:induction false} SumWhereUpdate<T>(keys: seq<T>, m: map<T, nat>, k: T, v: nat, p: T -> bool)
    requires Distinct(keys) && k in keys && forall j :: j in keys ==> j in m
    ensures SumWhere(keys, m[k := v], p) + (if p(k) then m[k] else 0) == SumWhere(keys, m, p) + (if p(k) then v else 0)
  {
    var init, last := keys[..|keys| - 1], keys[|keys| - 1];
    if last == k {
      assert forall i :: 0 <= i < |init| ==> init[i] != k by {
        forall i | 0 <= i < |init| ensures init[i] != k {
          assert init[i] == keys[i];
        }
      }
      SumWhereFrame(init, m[k := v], m, p);
    } else {
      SumWhereUpdate(init, m, k, v, p);
    }
  }

  /** Over a `Counter`, the counts of the keys satisfying `p` add up to the number of elements satisfying `p`. */
  lemma {:induction false} CounterSumWhere<T(!new)>(xs: seq<T>, p: T -> bool)
    ensures SumWhere(CounterOf(xs).keys, CounterOf(xs).m, p) == CountWhere(xs, p)
  {
    if xs != [] {
      var init, x := xs[..|xs| - 1], xs[|xs| - 1];
      CounterSumWhere(init, p);
      IncSumWhere(CounterOf(init), x, p);
    }
  }

  /** Counting one more `k` adds one to the sum when `k` satisfies `p`. */
  lemma IncSumWhere<T(!new)>(c: Dict<T, nat>, k: T, p: T -> bool)
    requires Valid(c)
    ensures SumWhere(Inc(c, k).keys, Inc(c, k).m, p) == SumWhere(c.keys, c.m, p) + if p(k) then 1 else 0
  {
    var r := Inc(c, k);
    if k in c.m {
      SumWhereUpdate(c.keys, c.m, k, c.m[k] + 1, p);
    } else {
      assert r.keys[..|r.keys| - 1] == c.keys;
      SumWhereFrame(c.keys, r.m, c.m, p);
    }
  }
}
