/**
 Python dictionaries as the n-gram engine uses them (`dict`, `defaultdict`, `Counter`):
 a finite mapping together with the order in which its keys were first inserted.
 The order matters because `list(d.keys())`, `d.items()` and `d.values()` follow it.
 */
module Dicts {

  datatype Dict<K, V> = Dict(keys: seq<K>, m: map<K, V>)

  ghost predicate Distinct<T>(s: seq<T>)
  {
    forall i, j :: 0 <= i < j < |s| ==> s[i] != s[j]
  }

  /** The key sequence lists every key of the mapping exactly once. */
  ghost predicate Valid<K(!new), V>(d: Dict<K, V>)
  {
    Distinct(d.keys) && (forall k :: k in d.m <==> k in d.keys)
  }

  function Empty<K(!new), V>(): (d: Dict<K, V>)
    ensures Valid(d) && d.m == map[] && d.keys == []
  {
    Dict([], map[])
  }

  /** `d.get(k, dflt)` */
  function Get<K, V>(d: Dict<K, V>, k: K, dflt: V): V
  {
    if k in d.m then d.m[k] else dflt
  }

  /** `d[k] = v`: an existing key keeps its position, a new key goes last. */
  function Put<K(!new), V>(d: Dict<K, V>, k: K, v: V): (r: Dict<K, V>)
    requires Valid(d)
    ensures Valid(r) && r.m == d.m[k := v]
    ensures r.keys == if k in d.m then d.keys else d.keys + [k]
  {
    if k in d.m then Dict(d.keys, d.m[k := v]) else Dict(d.keys + [k], d.m[k := v])
  }

  /** `d[k] += 1` on a `defaultdict(int)` or a `Counter`. */
  function Inc<K(!new)>(d: Dict<K, nat>, k: K): (r: Dict<K, nat>)
    requires Valid(d)
    ensures Valid(r) && k in r.m && r.m[k] == Get(d, k, 0) + 1
    ensures forall j :: j != k ==> (j in r.m <==> j in d.m) && (j in d.m ==> r.m[j] == d.m[j])
    ensures r.keys == if k in d.m then d.keys else d.keys + [k]
  {
    Put(d, k, Get(d, k, 0) + 1)
  }

  /** Reading `d[k]` on a `defaultdict`: a missing key is inserted with the default value. */
  function Touch<K(!new), V>(d: Dict<K, V>, k: K, dflt: V): (r: Dict<K, V>)
    requires Valid(d)
    ensures Valid(r) && k in r.m && r.m[k] == Get(d, k, dflt)
    ensures forall j :: j != k ==> (j in r.m <==> j in d.m) && (j in d.m ==> r.m[j] == d.m[j])
    ensures |r.keys| >= |d.keys| && r.keys[..|d.keys|] == d.keys
  {
    if k in d.m then d else Put(d, k, dflt)
  }

  // ---------------------------------------------------------------------------
  // Integer sums: `sum(d.values())` over counts

  function SumOf<K>(keys: seq<K>, m: map<K, nat>): nat
    requires forall k :: k in keys ==> k in m
  {
    if keys == [] then 0 else SumOf(keys[..|keys| - 1], m) + m[keys[|keys| - 1]]
  }

  function Total<K(!new)>(d: Dict<K, nat>): nat
    requires Valid(d)
  {
    SumOf(d.keys, d.m)
  }

  /** The sum only looks at the keys it is given. */
  lemma {:induction false} SumOfFrame<K>(keys: seq<K>, m1: map<K, nat>, m2: map<K, nat>)
    requires forall k :: k in keys ==> k in m1 && k in m2 && m1[k] == m2[k]
    ensures SumOf(keys, m1) == SumOf(keys, m2)
  {
    if keys != [] {
      SumOfFrame(keys[..|keys| - 1], m1, m2);
    }
  }

  /** Changing the value of one key that occurs once changes the sum by the difference. */
  lemma {:induction false} SumOfUpdate<K>(keys: seq<K>, m: map<K, nat>, k: K, v: nat)
    requires Distinct(keys) && k in keys
    requires forall j :: j in keys ==> j in m
    ensures SumOf(keys, m[k := v]) + m[k] == SumOf(keys, m) + v
  {
    var init, last := keys[..|keys| - 1], keys[|keys| - 1];
    if last == k {
      assert forall i :: 0 <= i < |init| ==> init[i] != k by {
        forall i | 0 <= i < |init| ensures init[i] != k {
          assert init[i] == keys[i];
        }
      }
      SumOfFrame(init, m[k := v], m);
    } else {
      SumOfUpdate(init, m, k, v);
    }
  }

  /** Incrementing a count adds one to the total. */
  lemma TotalInc<K(!new)>(d: Dict<K, nat>, k: K)
    requires Valid(d)
    ensures Total(Inc(d, k)) == Total(d) + 1
  {
    var r := Inc(d, k);
    if k in d.m {
      SumOfUpdate(d.keys, d.m, k, d.m[k] + 1);
    } else {
      assert r.keys[..|r.keys| - 1] == d.keys;
      SumOfFrame(d.keys, r.m, d.m);
    }
  }

  /** A lookup that inserts a zero count leaves the total alone. */
  lemma TotalTouch<K(!new)>(d: Dict<K, nat>, k: K)
    requires Valid(d)
    ensures Total(Touch(d, k, 0)) == Total(d)
  {
    if k !in d.m {
      var r := Put(d, k, 0);
      assert Touch(d, k, 0) == r;
      assert r.keys == d.keys + [k];
      assert r.keys[..|r.keys| - 1] == d.keys;
      SumOfFrame(d.keys, r.m, d.m);
    }
  }

  /** A positive total has a key with a positive count. */
  lemma {:induction false} SumOfPositive<K>(keys: seq<K>, m: map<K, nat>) returns (i: nat)
    requires forall k :: k in keys ==> k in m
    requires SumOf(keys, m) > 0
    ensures i < |keys| && m[keys[i]] > 0
  {
    if m[keys[|keys| - 1]] > 0 {
      i := |keys| - 1;
    } else {
      i := SumOfPositive(keys[..|keys| - 1], m);
    }
  }

  lemma TotalPositive<K(!new)>(d: Dict<K, nat>)
    requires Valid(d) && Total(d) > 0
    ensures exists i :: 0 <= i < |d.keys| && d.m[d.keys[i]] > 0
  {
    var i := SumOfPositive(d.keys, d.m);
  }

  // ---------------------------------------------------------------------------
  // Real sums: `sum(...)` over probabilities and `random.choices` weights

  function Sum(s: seq<real>): real
  {
    if s == [] then 0.0 else s[0] + Sum(s[1..])
  }

  lemma {:induction false} SumAppend(a: seq<real>, b: seq<real>)
    ensures Sum(a + b) == Sum(a) + Sum(b)
  {
    if a != [] {
      assert (a + b)[0] == a[0];
      assert (a + b)[1..] == a[1..] + b;
      SumAppend(a[1..], b);
    } else {
      assert a + b == b;
    }
  }

  /** A sequence of non-negative numbers with one positive entry has a positive sum. */
  lemma {:induction false} SumPositive(s: seq<real>, i: nat)
    requires forall j :: 0 <= j < |s| ==> s[j] >= 0.0
    requires i < |s| && s[i] > 0.0
    ensures Sum(s) > 0.0
  {
    if i > 0 {
      SumPositive(s[1..], i - 1);
    } else {
      SumNonNegative(s[1..]);
    }
  }

  lemma {:induction false} SumNonNegative(s: seq<real>)
    requires forall j :: 0 <= j < |s| ==> s[j] >= 0.0
    ensures Sum(s) >= 0.0
  {
    if s != [] {
      SumNonNegative(s[1..]);
    }
  }

  /** Dividing every entry by t divides the sum by t. */
  lemma {:induction false} SumDivide(s: seq<real>, r: seq<real>, t: real)
    requires t != 0.0 && |r| == |s|
    requires forall j :: 0 <= j < |s| ==> r[j] == s[j] / t
    ensures Sum(r) == Sum(s) / t
  {
    if s != [] {
      SumDivide(s[1..], r[1..], t);
    }
  }

  /** `list(d.values())` of a dictionary of reals. */
  function Values<K(!new)>(d: Dict<K, real>): (r: seq<real>)
    requires Valid(d)
    ensures |r| == |d.keys|
  {
    seq(|d.keys|, i requires 0 <= i < |d.keys| => d.m[d.keys[i]])
  }

  /** `list(d.values())` of a dictionary of counts, as the weights `random.choices` receives. */
  function Weights<K(!new)>(d: Dict<K, nat>): (r: seq<real>)
    requires Valid(d)
    ensures |r| == |d.keys|
    ensures forall i :: 0 <= i < |r| ==> r[i] >= 0.0
  {
    seq(|d.keys|, i requires 0 <= i < |d.keys| => d.m[d.keys[i]] as real)
  }

  lemma {:induction false} SumOfAsReal<K>(keys: seq<K>, m: map<K, nat>, s: seq<real>)
    requires forall k :: k in keys ==> k in m
    requires |s| == |keys| && forall i :: 0 <= i < |keys| ==> s[i] == m[keys[i]] as real
    ensures Sum(s) == SumOf(keys, m) as real
  {
    if keys != [] {
      var init, t := keys[..|keys| - 1], s[..|s| - 1];
      assert s == t + [s[|s| - 1]];
      SumAppend(t, [s[|s| - 1]]);
      SumOfAsReal(init, m, t);
    }
  }

  /** The weights of a count table add up to its total. */
  lemma WeightsSum<K(!new)>(d: Dict<K, nat>)
    requires Valid(d)
    ensures Sum(Weights(d)) == Total(d) as real
  {
    SumOfAsReal(d.keys, d.m, Weights(d));
  }

  /** `{k: v / t for k, v in d.items()}`; Python never evaluates a division when `d` is empty. */
  function Divide<K(!new)>(d: Dict<K, nat>, t: nat): (r: Dict<K, real>)
    requires Valid(d) && (t > 0 || d.keys == [])
    ensures Valid(r) && r.keys == d.keys
    ensures forall k :: k in r.m ==> r.m[k] == d.m[k] as real / t as real
  {
    if d.keys == [] then Dict(d.keys, map[]) else Dict(d.keys, map k | k in d.m :: d.m[k] as real / t as real)
  }

  /** Dividing a count table by its own total gives values that add up to one. */
  lemma DivideSum<K(!new)>(d: Dict<K, nat>)
    requires Valid(d) && Total(d) > 0
    ensures Sum(Values(Divide(d, Total(d)))) == 1.0
  {
    var t := Total(d);
    var q := Divide(d, t);
    var w, v := Weights(d), Values(q);
    WeightsSum(d);
    forall j | 0 <= j < |w|
      ensures v[j] == w[j] / t as real
    {
      var k := d.keys[j];
      assert v[j] == q.m[k];
      assert w[j] == d.m[k] as real;
    }
    SumDivide(w, v, t as real);
    DivideSelf(t as real);
  }

  lemma DivideSelf(t: real)
    requires t > 0.0
    ensures t / t == 1.0
  {
  }
}
