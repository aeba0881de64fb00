/**
 The alternate pipeline of teorema_bayes.py: the joint and conditional character
 distributions of `distribucion_conjunta_condicional`, the two generators `generar_texto`
 and `generar_palabras`, and the word table `p_pal_cond` built at module level.
 */
module Bayes {
  import opened Dicts
  import opened Windows
  import opened Strings
  import opened Outcomes
  import opened Counters
  import opened Sampling
  import opened Normalizer
  import opened WordModel

  // ---------------------------------------------------------------------------
  // distribucion_conjunta_condicional

  /** `len(range(len(texto) - n))`: the last window of the text is not counted. */
  function Starts(len: nat, n: nat): nat
  {
    if len > n then len - n else 0
  }

  /** One window fewer than a stride-1 pass that counts every window of length n. */
  lemma StartsSkipLast(len: nat, n: nat)
    ensures len >= n ==> Starts(len, n) + 1 == WindowCount(len, n)
    ensures len < n ==> Starts(len, n) == 0 == WindowCount(len, n)
  {
  }

  /** `[texto[i:i+n] for i in range(len(texto) - n)]` */
  function NGrams(text: string, n: nat): (r: seq<string>)
    ensures |r| == Starts(|text|, n)
    ensures forall i :: 0 <= i < |r| ==> r[i] == text[i..i + n]
  {
    seq(Starts(|text|, n), i requires 0 <= i < Starts(|text|, n) => text[i..i + n])
  }

  /** The window list holds each string of length n as often as it occurs at the counted starts. */
  lemma NGramsCount(text: string, n: nat, k: nat, w: string)
    requires k <= Starts(|text|, n) && |w| == n
    ensures multiset(NGrams(text, n)[..k])[w] == Occurrences(text, w, k)
  {
    WindowsCount(text, n, NGrams(text, n), k, w);
  }

  /** The same, for any list that holds the windows of length n in order. */
  lemma {:induction false} WindowsCount(text: string, n: nat, s: seq<string>, k: nat, w: string)
    requires k <= |s| && |w| == n && (s != [] ==> |s| + n <= |text|)
    requires forall i :: 0 <= i < |s| ==> s[i] == text[i..i + n]
    ensures multiset(s[..k])[w] == Occurrences(text, w, k)
  {
    if k > 0 {
      var g := s[k - 1];
      assert Occurrences(text, w, k) == Occurrences(text, w, k - 1) + if g == w then 1 else 0 by {
        assert g == text[k - 1..k - 1 + |w|];
      }
      assert multiset(s[..k])[w] == multiset(s[..k - 1])[w] + if g == w then 1 else 0 by {
        MultisetPrefixLast(s, k, w);
      }
      WindowsCount(text, n, s, k - 1, w);
    }
  }

  /** The windows whose first n - 1 characters are `p` are the occurrences of `p` at the counted starts. */
  lemma NGramsPrefixCount(text: string, n: nat, k: nat, p: string)
    requires n >= 1 && k <= Starts(|text|, n) && |p| == n - 1
    ensures CountWhere(NGrams(text, n)[..k], PrefixIs(p)) == Occurrences(text, p, k)
  {
    WindowsPrefixCount(text, n, NGrams(text, n), k, p);
  }

  /** The same, for any list that holds the windows of length n in order. */
  lemma {:induction false} WindowsPrefixCount(text: string, n: nat, s: seq<string>, k: nat, p: string)
    requires n >= 1 && k <= |s| && |p| == n - 1 && (s != [] ==> |s| + n <= |text|)
    requires forall i :: 0 <= i < |s| ==> s[i] == text[i..i + n]
    ensures CountWhere(s[..k], PrefixIs(p)) == Occurrences(text, p, k)
  {
    if k > 0 {
      var g := s[k - 1];
      assert s[..k][..k - 1] == s[..k - 1];
      assert g[..n - 1] == text[k - 1..k - 1 + |p|];
      WindowsPrefixCount(text, n, s, k - 1, p);
    }
  }

  /** Every window has length n. */
  lemma NGramsLength(text: string, n: nat, w: string)
    requires w in NGrams(text, n)
    ensures |w| == n
  {
  }

  /** The counts of a `Counter` add up to the length of its list. */
  lemma {:induction false} CounterTotal<T(!new)>(xs: seq<T>)
    ensures Total(CounterOf(xs)) == |xs|
  {
    if xs != [] {
      CounterTotal(xs[..|xs| - 1]);
      TotalInc(CounterOf(xs[..|xs| - 1]), xs[|xs| - 1]);
    }
  }

  /** Every row is a well-formed dictionary. */
  ghost predicate RowsValid<K, V(!new), W>(cond: Dict<K, Dict<V, W>>)
  {
    forall p :: p in cond.m ==> Dicts.Valid(cond.m[p])
  }

  /** `row[x] = row.get(x, 0) + v` */
  function AddCount(row: Dict<char, nat>, x: char, v: nat): (r: Dict<char, nat>)
    requires Dicts.Valid(row)
    ensures Dicts.Valid(r) && x in r.m && r.m[x] == Get<char, nat>(row, x, 0) + v
    ensures forall y :: y != x ==> (y in r.m <==> y in row.m) && (y in row.m ==> r.m[y] == row.m[y])
    ensures r.keys == if x in row.m then row.keys else row.keys + [x]
  {
    var c: nat := Get<char, nat>(row, x, 0) + v;
    Put(row, x, c)
  }

  /** `k[:-1]` */
  function Prefix(k: string): string
    requires k != []
  {
    k[..|k| - 1]
  }

  /** `k[-1]` */
  function LastOf(k: string): char
    requires k != []
  {
    k[|k| - 1]
  }

  /** A non-empty key is its prefix followed by its last character, so the split loses nothing. */
  lemma SplitInjective(k: string, k': string)
    requires k != [] && k' != []
    ensures Prefix(k) == Prefix(k') && LastOf(k) == LastOf(k') <==> k == k'
  {
    assert k == Prefix(k) + [LastOf(k)] && k' == Prefix(k') + [LastOf(k')];
  }

  /** `k[:-1] == p` for a non-empty key `k` */
  function PrefixIs(p: string): string -> bool
  {
    (k: string) => k != [] && Prefix(k) == p
  }

  /** `cond[k[:-1]][k[-1]] == v` */
  ghost predicate HasCell(cond: Dict<string, Dict<char, nat>>, k: string, v: nat)
  {
    k != [] && Prefix(k) in cond.m && LastOf(k) in cond.m[Prefix(k)].m && cond.m[Prefix(k)].m[LastOf(k)] == v
  }

  /** `cond[prefijo][sig] = cond[prefijo].get(sig, 0) + v` for `prefijo, sig = k[:-1], k[-1]` */
  function AddSplit(cond: Dict<string, Dict<char, nat>>, k: string, v: nat): (r: Dict<string, Dict<char, nat>>)
    requires Dicts.Valid(cond) && RowsValid(cond) && k != []
    ensures Dicts.Valid(r) && RowsValid(r)
    ensures Prefix(k) in r.m && r.m[Prefix(k)] == AddCount(Get(cond, Prefix(k), Empty()), LastOf(k), v)
    ensures forall q :: q != Prefix(k) ==> (q in r.m <==> q in cond.m) && (q in cond.m ==> r.m[q] == cond.m[q])
  {
    Put(cond, Prefix(k), AddCount(Get(cond, Prefix(k), Empty()), LastOf(k), v))
  }

  /** Each of the first i keys of `conj` is split into its prefix row and last character, holding its count. */
  ghost predicate SplitDone(conj: Dict<string, nat>, i: nat, cond: Dict<string, Dict<char, nat>>)
    requires Dicts.Valid(conj) && i <= |conj.keys|
  {
    forall j :: 0 <= j < i ==> HasCell(cond, conj.keys[j], conj.m[conj.keys[j]])
  }

  /** Every entry is the split of one of the first i keys. */
  ghost predicate SplitSound(conj: Dict<string, nat>, i: nat, cond: Dict<string, Dict<char, nat>>)
    requires i <= |conj.keys|
  {
    forall p, x :: p in cond.m && x in cond.m[p].m ==>
      exists j :: 0 <= j < i && conj.keys[j] != [] && Prefix(conj.keys[j]) == p && LastOf(conj.keys[j]) == x
  }

  /** Each row is non-empty and adds up to the counts of the first i keys with its prefix. */
  ghost predicate SplitTotals(conj: Dict<string, nat>, i: nat, cond: Dict<string, Dict<char, nat>>)
    requires Dicts.Valid(conj) && i <= |conj.keys| && RowsValid(cond)
  {
    forall p ::
      && (p in cond.m ==> cond.m[p].keys != [])
      && Total(Get(cond, p, Empty())) == SumWhere(conj.keys[..i], conj.m, PrefixIs(p))
  }

  ghost predicate SplitInv(conj: Dict<string, nat>, i: nat, cond: Dict<string, Dict<char, nat>>)
  {
    && Dicts.Valid(conj) && i <= |conj.keys| && Dicts.Valid(cond) && RowsValid(cond)
    && SplitDone(conj, i, cond) && SplitSound(conj, i, cond) && SplitTotals(conj, i, cond)
  }

  /** Splitting key i keeps the invariant. */
  lemma SplitStep(conj: Dict<string, nat>, i: nat, cond: Dict<string, Dict<char, nat>>)
    requires SplitInv(conj, i, cond) && i < |conj.keys| && conj.keys[i] != []
    ensures SplitInv(conj, i + 1, AddSplit(cond, conj.keys[i], conj.m[conj.keys[i]]))
  {
    SplitFresh(conj, i, cond);
    SplitStepDone(conj, i, cond);
    SplitStepSound(conj, i, cond);
    SplitStepTotals(conj, i, cond);
  }

  /** The key being split has no entry yet, since the keys are distinct. */
  lemma SplitFresh(conj: Dict<string, nat>, i: nat, cond: Dict<string, Dict<char, nat>>)
    requires Dicts.Valid(conj) && i < |conj.keys| && conj.keys[i] != []
    requires SplitSound(conj, i, cond)
    ensures var k := conj.keys[i]; !(Prefix(k) in cond.m && LastOf(k) in cond.m[Prefix(k)].m)
  {
    var k := conj.keys[i];
    if Prefix(k) in cond.m && LastOf(k) in cond.m[Prefix(k)].m {
      var j :| 0 <= j < i && conj.keys[j] != [] && Prefix(conj.keys[j]) == Prefix(k) && LastOf(conj.keys[j]) == LastOf(k);
      SplitInjective(conj.keys[j], k);
      assert false;
    }
  }

  lemma SplitStepDone(conj: Dict<string, nat>, i: nat, cond: Dict<string, Dict<char, nat>>)
    requires Dicts.Valid(conj) && i < |conj.keys| && conj.keys[i] != []
    requires Dicts.Valid(cond) && RowsValid(cond) && SplitDone(conj, i, cond)
    requires var k := conj.keys[i]; !(Prefix(k) in cond.m && LastOf(k) in cond.m[Prefix(k)].m)
    ensures SplitDone(conj, i + 1, AddSplit(cond, conj.keys[i], conj.m[conj.keys[i]]))
  {
    var k := conj.keys[i];
    var r := AddSplit(cond, k, conj.m[k]);
    forall j | 0 <= j < i + 1
      ensures HasCell(r, conj.keys[j], conj.m[conj.keys[j]])
    {
      var k' := conj.keys[j];
      if j < i {
        assert HasCell(cond, k', conj.m[k']);
        SplitInjective(k', k);
      }
    }
  }

  lemma SplitStepSound(conj: Dict<string, nat>, i: nat, cond: Dict<string, Dict<char, nat>>)
    requires Dicts.Valid(conj) && i < |conj.keys| && conj.keys[i] != []
    requires Dicts.Valid(cond) && RowsValid(cond) && SplitSound(conj, i, cond)
    ensures SplitSound(conj, i + 1, AddSplit(cond, conj.keys[i], conj.m[conj.keys[i]]))
  {
    var k := conj.keys[i];
    var r := AddSplit(cond, k, conj.m[k]);
    forall p, x | p in r.m && x in r.m[p].m
      ensures exists j :: 0 <= j < i + 1 && conj.keys[j] != [] && Prefix(conj.keys[j]) == p && LastOf(conj.keys[j]) == x
    {
      if p == Prefix(k) && x == LastOf(k) {
        assert conj.keys[i] == k;
      } else {
        assert p in cond.m && x in cond.m[p].m;
        var j :| 0 <= j < i && conj.keys[j] != [] && Prefix(conj.keys[j]) == p && LastOf(conj.keys[j]) == x;
      }
    }
  }

  lemma SplitStepTotals(conj: Dict<string, nat>, i: nat, cond: Dict<string, Dict<char, nat>>)
    requires Dicts.Valid(conj) && i < |conj.keys| && conj.keys[i] != []
    requires Dicts.Valid(cond) && RowsValid(cond) && SplitTotals(conj, i, cond)
    ensures SplitTotals(conj, i + 1, AddSplit(cond, conj.keys[i], conj.m[conj.keys[i]]))
  {
    var k := conj.keys[i];
    var r := AddSplit(cond, k, conj.m[k]);
    forall q
      ensures (q in r.m ==> r.m[q].keys != []) && Total(Get(r, q, Empty())) == SumWhere(conj.keys[..i + 1], conj.m, PrefixIs(q))
    {
      SplitTotalsAt(conj, i, cond, q);
    }
  }

  lemma SplitTotalsAt(conj: Dict<string, nat>, i: nat, cond: Dict<string, Dict<char, nat>>, q: string)
    requires Dicts.Valid(conj) && i < |conj.keys| && conj.keys[i] != []
    requires Dicts.Valid(cond) && RowsValid(cond)
    requires (q in cond.m ==> cond.m[q].keys != []) && Total(Get(cond, q, Empty())) == SumWhere(conj.keys[..i], conj.m, PrefixIs(q))
    ensures var r := AddSplit(cond, conj.keys[i], conj.m[conj.keys[i]]);
      (q in r.m ==> r.m[q].keys != []) && Total(Get(r, q, Empty())) == SumWhere(conj.keys[..i + 1], conj.m, PrefixIs(q))
  {
    var k := conj.keys[i];
    if q == Prefix(k) {
      SplitTotalsHit(conj, i, cond);
    } else {
      SplitTotalsMiss(conj, i, cond, q);
    }
  }

  /** The row of the key's prefix grows by the key's count. */
  lemma SplitTotalsHit(conj: Dict<string, nat>, i: nat, cond: Dict<string, Dict<char, nat>>)
    requires Dicts.Valid(conj) && i < |conj.keys| && conj.keys[i] != []
    requires Dicts.Valid(cond) && RowsValid(cond)
    requires var q := Prefix(conj.keys[i]); Total(Get(cond, q, Empty())) == SumWhere(conj.keys[..i], conj.m, PrefixIs(q))
    ensures var k := conj.keys[i]; var q := Prefix(k); var r := AddSplit(cond, k, conj.m[k]);
      r.m[q].keys != [] && Total(r.m[q]) == SumWhere(conj.keys[..i + 1], conj.m, PrefixIs(q))
  {
    var k := conj.keys[i];
    var q := Prefix(k);
    var row := Get(cond, q, Empty());
    assert SumWhere(conj.keys[..i + 1], conj.m, PrefixIs(q)) == SumWhere(conj.keys[..i], conj.m, PrefixIs(q)) + conj.m[k] by {
      SumWhereNext(conj, i, PrefixIs(q));
      assert PrefixIs(q)(k);
    }
    RowGrows(row, LastOf(k), conj.m[k]);
  }

  /** Any other row is left as it was. */
  lemma SplitTotalsMiss(conj: Dict<string, nat>, i: nat, cond: Dict<string, Dict<char, nat>>, q: string)
    requires Dicts.Valid(conj) && i < |conj.keys| && conj.keys[i] != [] && q != Prefix(conj.keys[i])
    requires Dicts.Valid(cond) && RowsValid(cond)
    ensures var k := conj.keys[i]; var r := AddSplit(cond, k, conj.m[k]);
      && (q in r.m <==> q in cond.m) && Get(r, q, Empty()) == Get(cond, q, Empty())
      && SumWhere(conj.keys[..i + 1], conj.m, PrefixIs(q)) == SumWhere(conj.keys[..i], conj.m, PrefixIs(q))
  {
    var k := conj.keys[i];
    assert SumWhere(conj.keys[..i + 1], conj.m, PrefixIs(q)) == SumWhere(conj.keys[..i], conj.m, PrefixIs(q)) by {
      SumWhereNext(conj, i, PrefixIs(q));
      assert !PrefixIs(q)(k);
    }
  }

  /** Taking one more key adds its count when it satisfies `p`. */
  lemma SumWhereNext<T(!new)>(d: Dict<T, nat>, i: nat, p: T -> bool)
    requires Dicts.Valid(d) && i < |d.keys|
    ensures SumWhere(d.keys[..i + 1], d.m, p) == SumWhere(d.keys[..i], d.m, p) + if p(d.keys[i]) then d.m[d.keys[i]] else 0
  {
    assert d.keys[..i + 1][..i] == d.keys[..i];
  }

  /** Adding v to one count adds v to the total. */
  lemma RowGrows(row: Dict<char, nat>, x: char, v: nat)
    requires Dicts.Valid(row)
    ensures Total(AddCount(row, x, v)) == Total(row) + v
  {
    var r := AddCount(row, x, v);
    if x in row.m {
      SumOfUpdate(row.keys, row.m, x, row.m[x] + v);
    } else {
      assert r.keys[..|r.keys| - 1] == row.keys;
      SumOfFrame(row.keys, r.m, row.m);
    }
  }

  /** Once every key is split, none of them is empty. */
  lemma NoEmptyKey(conj: Dict<string, nat>, cond: Dict<string, Dict<char, nat>>)
    requires Dicts.Valid(conj) && SplitDone(conj, |conj.keys|, cond)
    ensures [] !in conj.m
  {
    forall j | 0 <= j < |conj.keys|
      ensures conj.keys[j] != []
    {
      assert HasCell(cond, conj.keys[j], conj.m[conj.keys[j]]);
    }
  }

  /**
   Lines 32-35 of `distribucion_conjunta_condicional`: each key `k` of `conj` adds its count
   to `cond[k[:-1]][k[-1]]`. An empty key (n = 0) fails at `k[-1]` with an `IndexError`.
   */
  method SplitCounts(conj: Dict<string, nat>) returns (r: Result<Dict<string, Dict<char, nat>>>)
    requires Dicts.Valid(conj)
    ensures r.Err? <==> [] in conj.m
    ensures r.Err? ==> r.error == IndexError
    ensures r.Ok? ==> SplitInv(conj, |conj.keys|, r.value)
  {
    var cond: Dict<string, Dict<char, nat>> := Empty();
    var i := 0;
    while i < |conj.keys|
      invariant SplitInv(conj, i, cond)
    {
      var k := conj.keys[i];
      if k == [] {
        return Err(IndexError);
      }
      SplitStep(conj, i, cond);
      cond := AddSplit(cond, k, conj.m[k]);
      i := i + 1;
    }
    NoEmptyKey(conj, cond);
    r := Ok(cond);
  }

  /** Lines 40-41: `for sig in vals: cond[prefijo][sig] /= total_pref`, key order unchanged. */
  method DivideRow(row: Dict<char, nat>, t: nat) returns (r: Dict<char, real>)
    requires Dicts.Valid(row) && t > 0
    ensures r == Divide(row, t)
  {
    r := Dict([], map[]);
    var j := 0;
    while j < |row.keys|
      invariant j <= |row.keys| && r.keys == row.keys[..j]
      invariant r.m == map x | x in row.keys[..j] :: row.m[x] as real / t as real
    {
      var x := row.keys[j];
      assert row.keys[..j + 1] == row.keys[..j] + [x];
      r := Dict(r.keys + [x], r.m[x := row.m[x] as real / t as real]);
      j := j + 1;
    }
    assert row.keys[..j] == row.keys;
    if row.keys != [] {
      assert r.m == map x | x in row.m :: row.m[x] as real / t as real;
    }
  }

  /** Every row of the count table as lines 38-41 leave it: divided by its own total. */
  ghost predicate Normalized(cond: Dict<string, Dict<char, nat>>, norm: Dict<string, Dict<char, real>>)
    requires RowsValid(cond)
  {
    && norm.keys == cond.keys
    && (forall p :: p in norm.m <==> p in cond.m)
    && forall p :: p in cond.m ==> Total(cond.m[p]) > 0 && norm.m[p] == Divide(cond.m[p], Total(cond.m[p]))
  }

  /** Lines 38-41: each row divided by `total_pref = sum(vals.values())`. */
  method NormalizeRows(cond: Dict<string, Dict<char, nat>>) returns (norm: Dict<string, Dict<char, real>>)
    requires Dicts.Valid(cond) && RowsValid(cond)
    requires forall p :: p in cond.m ==> Total(cond.m[p]) > 0
    ensures Normalized(cond, norm)
  {
    norm := Dict([], map[]);
    var i := 0;
    while i < |cond.keys|
      invariant i <= |cond.keys| && norm.keys == cond.keys[..i]
      invariant forall p :: p in norm.m <==> p in cond.keys[..i]
      invariant forall p :: p in norm.m ==> p in cond.m && norm.m[p] == Divide(cond.m[p], Total(cond.m[p]))
    {
      var p := cond.keys[i];
      var row := DivideRow(cond.m[p], Total(cond.m[p]));
      assert cond.keys[..i + 1] == cond.keys[..i] + [p];
      norm := Dict(norm.keys + [p], norm.m[p := row]);
      i := i + 1;
    }
    assert cond.keys[..i] == cond.keys;
  }

  /** A string is one of the windows exactly when it has length n and occurs at a counted start. */
  lemma InNGrams(text: string, n: nat, w: string)
    ensures w in NGrams(text, n) <==> |w| == n && Occurrences(text, w, Starts(|text|, n)) > 0
    ensures w in NGrams(text, n) ==> multiset(NGrams(text, n))[w] == Occurrences(text, w, Starts(|text|, n))
  {
    var s := NGrams(text, n);
    if |w| == n {
      NGramsCount(text, n, |s|, w);
      assert s[..|s|] == s;
    } else if w in s {
      NGramsLength(text, n, w);
    }
  }

  /** A count that is positive for one key makes the total positive. */
  lemma {:induction false} SumOfAtLeast<K>(keys: seq<K>, m: map<K, nat>, k: K)
    requires forall j :: j in keys ==> j in m
    requires k in keys
    ensures SumOf(keys, m) >= m[k]
  {
    if keys[|keys| - 1] != k {
      var init := keys[..|keys| - 1];
      assert k in init by {
        var j :| 0 <= j < |keys| && keys[j] == k;
        assert init[j] == k;
      }
      SumOfAtLeast(init, m, k);
    }
  }

  /** `p_conjunta`: each n-gram with its share of the counted windows. */
  ghost predicate JointIs(text: string, n: nat, joint: Dict<string, real>)
  {
    var total := Starts(|text|, n);
    && Dicts.Valid(joint)
    && (forall w :: w in joint.m <==> |w| == n && Occurrences(text, w, total) > 0)
    && (forall w :: w in joint.m ==> joint.m[w] == Occurrences(text, w, total) as real / total as real)
  }

  /** Every row is a non-empty dictionary. */
  ghost predicate CondShape(cond: Dict<string, Dict<char, real>>)
  {
    && Dicts.Valid(cond)
    && forall p :: p in cond.m ==> Dicts.Valid(cond.m[p]) && cond.m[p].keys != []
  }

  /** There is a cell for `p` and `x` exactly when `p + [x]` is an n-gram of the text. */
  ghost predicate CondCells(text: string, n: nat, cond: Dict<string, Dict<char, real>>)
  {
    forall p, x :: p in cond.m && x in cond.m[p].m <==> |p| + 1 == n && Follows(text, p, x, Starts(|text|, n)) > 0
  }

  /** Each cell is the share of the windows starting with `p` that go on with `x`. */
  ghost predicate CondValues(text: string, n: nat, cond: Dict<string, Dict<char, real>>)
  {
    var total := Starts(|text|, n);
    forall p, x :: p in cond.m && x in cond.m[p].m ==>
      Occurrences(text, p, total) > 0
      && cond.m[p].m[x] == Follows(text, p, x, total) as real / Occurrences(text, p, total) as real
  }

  /** `cond`: for each prefix of n - 1 characters, the share of its windows that go on with each character. */
  ghost predicate CondIs(text: string, n: nat, cond: Dict<string, Dict<char, real>>)
  {
    CondShape(cond) && CondCells(text, n, cond) && CondValues(text, n, cond)
  }

  /** The answer of `distribucion_conjunta_condicional`. */
  datatype Distributions = Distributions(joint: Dict<string, real>, cond: Dict<string, Dict<char, real>>)

  /**
   `distribucion_conjunta_condicional(texto, n)`. With n = 0 every window is the empty string
   and splitting it fails, unless the text is empty and there is no window at all.
   */
  method JointConditional(text: string, n: nat) returns (r: Result<Distributions>)
    ensures r.Err? <==> n == 0 && |text| > 0
    ensures r.Err? ==> r.error == IndexError
    ensures r.Ok? ==> JointIs(text, n, r.value.joint) && CondIs(text, n, r.value.cond)
    ensures r.Ok? ==> Starts(|text|, n) > 0 ==> Sum(Values(r.value.joint)) == 1.0
    ensures r.Ok? ==> forall p :: p in r.value.cond.m ==> Sum(Values(r.value.cond.m[p])) == 1.0
  {
    var grams := NGrams(text, n);
    var conj := CounterOf(grams);
    var total := Total(conj);
    CounterTotal(grams);
    var joint := Divide(conj, total);
    JointOfCounter(text, n);
    var split := SplitCounts(conj);
    if split.Err? {
      EmptyGram(text, n);
      return Err(IndexError);
    }
    EmptyGram(text, n);
    var counts := split.value;
    SplitPositive(conj, counts);
    var norm := NormalizeRows(counts);
    CondOfSplit(text, n, counts, norm);
    if total > 0 {
      DivideSum(conj);
    }
    r := Ok(Distributions(joint, norm));
  }

  /** The empty string is an n-gram exactly when n = 0 and the text has a window. */
  lemma EmptyGram(text: string, n: nat)
    ensures [] in CounterOf(NGrams(text, n)).m <==> n == 0 && |text| > 0
  {
    var s := NGrams(text, n);
    if n == 0 && |text| > 0 {
      assert s[0] == [];
    }
  }

  /** `{k: v / total}` over the `Counter` of the windows. */
  lemma JointOfCounter(text: string, n: nat)
    ensures var conj := CounterOf(NGrams(text, n));
      Total(conj) == Starts(|text|, n) && JointIs(text, n, Divide(conj, Total(conj)))
  {
    var conj := CounterOf(NGrams(text, n));
    CounterTotal(NGrams(text, n));
    forall w
      ensures w in conj.m <==> |w| == n && Occurrences(text, w, Starts(|text|, n)) > 0
      ensures w in conj.m ==> conj.m[w] == Occurrences(text, w, Starts(|text|, n))
    {
      InNGrams(text, n, w);
    }
  }

  /** Every row of a finished split adds up to a positive count, since a `Counter` holds positive counts. */
  lemma SplitPositive(conj: Dict<string, nat>, cond: Dict<string, Dict<char, nat>>)
    requires SplitInv(conj, |conj.keys|, cond)
    requires forall k :: k in conj.m ==> conj.m[k] > 0
    ensures forall p :: p in cond.m ==> Total(cond.m[p]) > 0
  {
    forall p | p in cond.m
      ensures Total(cond.m[p]) > 0
    {
      assert cond.m[p].keys != [];
      RowPositive(conj, cond, p);
    }
  }

  /** A row holds a cell of some counted key, so its total is at least that key's count. */
  lemma RowPositive(conj: Dict<string, nat>, cond: Dict<string, Dict<char, nat>>, p: string)
    requires Dicts.Valid(conj) && Dicts.Valid(cond) && RowsValid(cond)
    requires SplitDone(conj, |conj.keys|, cond) && SplitSound(conj, |conj.keys|, cond)
    requires forall k :: k in conj.m ==> conj.m[k] > 0
    requires p in cond.m && cond.m[p].keys != []
    ensures Total(cond.m[p]) > 0
  {
    var row := cond.m[p];
    var x := row.keys[0];
    assert x in row.m;
    CellPositive(conj, cond, p, x);
    SumOfAtLeast(row.keys, row.m, x);
  }

  /** Each cell is the count of a key of the `Counter`, so it is positive. */
  lemma CellPositive(conj: Dict<string, nat>, cond: Dict<string, Dict<char, nat>>, p: string, x: char)
    requires Dicts.Valid(conj) && SplitDone(conj, |conj.keys|, cond) && SplitSound(conj, |conj.keys|, cond)
    requires forall k :: k in conj.m ==> conj.m[k] > 0
    requires p in cond.m && x in cond.m[p].m
    ensures cond.m[p].m[x] > 0
  {
    var j :| 0 <= j < |conj.keys| && conj.keys[j] != [] && Prefix(conj.keys[j]) == p && LastOf(conj.keys[j]) == x;
    var k := conj.keys[j];
    assert HasCell(cond, k, conj.m[k]);
    assert k in conj.m;
  }


  /** The normalised split of the window `Counter` is the conditional distribution of the text. */
  lemma CondOfSplit(text: string, n: nat, counts: Dict<string, Dict<char, nat>>, norm: Dict<string, Dict<char, real>>)
    requires SplitInv(CounterOf(NGrams(text, n)), |CounterOf(NGrams(text, n)).keys|, counts)
    requires Normalized(counts, norm)
    ensures CondIs(text, n, norm)
    ensures forall p :: p in norm.m ==> Sum(Values(norm.m[p])) == 1.0
  {
    NormShape(counts, norm);
    NormCells(text, n, counts, norm);
    NormValues(text, n, counts, norm);
    forall p | p in norm.m
      ensures Sum(Values(norm.m[p])) == 1.0
    {
      DivideSum(counts.m[p]);
    }
  }

  lemma NormShape(counts: Dict<string, Dict<char, nat>>, norm: Dict<string, Dict<char, real>>)
    requires Dicts.Valid(counts) && RowsValid(counts) && Normalized(counts, norm)
    requires forall p :: p in counts.m ==> counts.m[p].keys != []
    ensures CondShape(norm)
  {
  }

  lemma NormCells(text: string, n: nat, counts: Dict<string, Dict<char, nat>>, norm: Dict<string, Dict<char, real>>)
    requires SplitInv(CounterOf(NGrams(text, n)), |CounterOf(NGrams(text, n)).keys|, counts)
    requires Normalized(counts, norm)
    ensures CondCells(text, n, norm)
  {
    forall p, x
      ensures p in norm.m && x in norm.m[p].m <==> |p| + 1 == n && Follows(text, p, x, Starts(|text|, n)) > 0
    {
      CellIff(text, n, counts, p, x);
      if p in counts.m {
        assert norm.m[p] == Divide(counts.m[p], Total(counts.m[p]));
      }
    }
  }

  lemma NormValues(text: string, n: nat, counts: Dict<string, Dict<char, nat>>, norm: Dict<string, Dict<char, real>>)
    requires SplitInv(CounterOf(NGrams(text, n)), |CounterOf(NGrams(text, n)).keys|, counts)
    requires Normalized(counts, norm)
    ensures CondValues(text, n, norm)
  {
    var total := Starts(|text|, n);
    forall p, x | p in norm.m && x in norm.m[p].m
      ensures Occurrences(text, p, total) > 0
      ensures norm.m[p].m[x] == Follows(text, p, x, total) as real / Occurrences(text, p, total) as real
    {
      assert norm.m[p] == Divide(counts.m[p], Total(counts.m[p]));
      CellValue(text, n, counts, p, x);
    }
  }

  /** Splitting `p + [x]` gives back `p` and `x`. */
  lemma SplitOf(p: string, x: char)
    ensures Prefix(p + [x]) == p && LastOf(p + [x]) == x
  {
    assert (p + [x])[..|p|] == p;
  }

  /** The split has a cell for `p` and `x` exactly when `p + [x]` is one of the windows. */
  lemma CellIff(text: string, n: nat, counts: Dict<string, Dict<char, nat>>, p: string, x: char)
    requires SplitInv(CounterOf(NGrams(text, n)), |CounterOf(NGrams(text, n)).keys|, counts)
    ensures p in counts.m && x in counts.m[p].m <==> |p| + 1 == n && Follows(text, p, x, Starts(|text|, n)) > 0
  {
    var conj := CounterOf(NGrams(text, n));
    var w := p + [x];
    SplitOf(p, x);
    InNGrams(text, n, w);
    if p in counts.m && x in counts.m[p].m {
      var j :| 0 <= j < |conj.keys| && conj.keys[j] != [] && Prefix(conj.keys[j]) == p && LastOf(conj.keys[j]) == x;
      SplitInjective(conj.keys[j], w);
    }
    if w in NGrams(text, n) {
      var j :| 0 <= j < |conj.keys| && conj.keys[j] == w;
      assert HasCell(counts, conj.keys[j], conj.m[conj.keys[j]]);
    }
  }

  /** A cell holds the count of `p + [x]` and its row adds up to the count of `p`. */
  lemma CellValue(text: string, n: nat, counts: Dict<string, Dict<char, nat>>, p: string, x: char)
    requires SplitInv(CounterOf(NGrams(text, n)), |CounterOf(NGrams(text, n)).keys|, counts)
    requires p in counts.m && x in counts.m[p].m
    ensures Occurrences(text, p, Starts(|text|, n)) > 0
    ensures counts.m[p].m[x] == Follows(text, p, x, Starts(|text|, n))
    ensures Total(counts.m[p]) == Occurrences(text, p, Starts(|text|, n))
  {
    var grams := NGrams(text, n);
    var conj := CounterOf(grams);
    CellCount(conj, counts, p, x);
    RowTotal(conj, counts, p);
    var w := p + [x];
    InNGrams(text, n, w);
    CounterSumWhere(grams, PrefixIs(p));
    NGramsPrefixCount(text, n, |grams|, p);
    FullSlice(grams);
    SumOfAtLeast(counts.m[p].keys, counts.m[p].m, x);
  }

  /** A cell of a finished split holds the count of the key it came from. */
  lemma CellCount(conj: Dict<string, nat>, counts: Dict<string, Dict<char, nat>>, p: string, x: char)
    requires Dicts.Valid(conj) && SplitDone(conj, |conj.keys|, counts) && SplitSound(conj, |conj.keys|, counts)
    requires p in counts.m && x in counts.m[p].m
    ensures p + [x] in conj.m && counts.m[p].m[x] == conj.m[p + [x]]
  {
    SplitOf(p, x);
    var j :| 0 <= j < |conj.keys| && conj.keys[j] != [] && Prefix(conj.keys[j]) == p && LastOf(conj.keys[j]) == x;
    SplitInjective(conj.keys[j], p + [x]);
    assert HasCell(counts, conj.keys[j], conj.m[conj.keys[j]]);
  }

  /** A row of a finished split adds up to the counts of the keys with its prefix. */
  lemma RowTotal(conj: Dict<string, nat>, counts: Dict<string, Dict<char, nat>>, p: string)
    requires Dicts.Valid(conj) && RowsValid(counts) && SplitTotals(conj, |conj.keys|, counts)
    requires p in counts.m
    ensures Total(counts.m[p]) == SumWhere(conj.keys, conj.m, PrefixIs(p))
  {
    assert Get(counts, p, Empty()) == counts.m[p];
    assert conj.keys[..|conj.keys|] == conj.keys;
  }

  // ---------------------------------------------------------------------------
  // generar_texto

  /** What `random.choices` and `random.choice` need of a conditional table: non-empty rows of positive weights. */
  ghost predicate Generable<K(!new), V(!new)>(cond: Dict<K, Dict<V, real>>)
  {
    && Dicts.Valid(cond)
    && forall p :: p in cond.m ==>
         && Dicts.Valid(cond.m[p]) && cond.m[p].keys != []
         && forall x :: x in cond.m[p].m ==> cond.m[p].m[x] > 0.0
  }

  /** The conditional distribution of a text can drive the generator. */
  lemma CondGenerable(text: string, n: nat, cond: Dict<string, Dict<char, real>>)
    requires CondIs(text, n, cond)
    ensures Generable(cond)
  {
    forall p, x | p in cond.m && x in cond.m[p].m
      ensures cond.m[p].m[x] > 0.0
    {
      var total := Starts(|text|, n);
      assert Follows(text, p, x, total) > 0;
      assert Occurrences(text, p, total) > 0;
    }
  }

  /** `[k for k in keys if k.startswith(p)]` */
  function WithPrefix(keys: seq<string>, p: string): (r: seq<string>)
    ensures forall i :: 0 <= i < |r| ==> StartsWith(r[i], p) && r[i] in keys
    ensures (exists i :: 0 <= i < |keys| && StartsWith(keys[i], p)) ==> r != []
  {
    if keys == [] then []
    else
      var rest := WithPrefix(keys[1..], p);
      assert forall i :: 0 <= i < |rest| ==> rest[i] in keys by {
        forall i | 0 <= i < |rest| ensures rest[i] in keys {
          var j :| 0 <= j < |keys[1..]| && keys[1..][j] == rest[i];
          assert keys[j + 1] == rest[i];
        }
      }
      assert (exists i :: 0 <= i < |keys| && StartsWith(keys[i], p)) ==>
               StartsWith(keys[0], p) || exists i :: 0 <= i < |keys[1..]| && StartsWith(keys[1..][i], p) by {
        if i :| 0 <= i < |keys| && StartsWith(keys[i], p) {
          if i > 0 {
            assert keys[1..][i - 1] == keys[i];
          }
        }
      }
      (if StartsWith(keys[0], p) then [keys[0]] else []) + rest
  }

  /** How one character of the generated text was obtained. */
  datatype Step =
    | Draw(context: string)  // `random.choices` over the row of `context`
    | Jump(key: string)      // `prefijo = random.choice(list(cond.keys()))`, then its last character

  /**
   The `prefijo` in force before step j: the one the text started from, the last `n - 1`
   characters after a draw (`resultado[-(n-1):]`), or the key just jumped to.
   */
  function ContextAt(n: int, out: string, from: nat, ctx0: string, steps: seq<Step>, j: nat): string
    requires j <= |steps| && from + j <= |out|
  {
    if j == 0 then ctx0
    else match steps[j - 1]
      case Draw(_) => SliceFrom(out[..from + j], 1 - n)
      case Jump(k) => k
  }

  /** Step `s` taken with `prefijo == c` may append `x`. */
  ghost predicate Fits(cond: Dict<string, Dict<char, real>>, c: string, x: char, s: Step)
  {
    match s
      case Draw(d) => d == c && c in cond.m && x in cond.m[c].m
      case Jump(k) => c !in cond.m && k in cond.m && k != [] && x == k[|k| - 1]
  }

  /** Step j appended `out[from + j]` by one branch of the loop of `generar_texto`. */
  ghost predicate StepOk(cond: Dict<string, Dict<char, real>>, n: int, out: string, from: nat, ctx0: string,
                         steps: seq<Step>, j: nat)
    requires j < |steps| && from + |steps| == |out|
  {
    Fits(cond, ContextAt(n, out, from, ctx0, steps, j), out[from + j], steps[j])
  }

  /** Every character after the first `from` was appended by a step of the loop. */
  ghost predicate Stepped(cond: Dict<string, Dict<char, real>>, n: int, out: string, from: nat, ctx0: string, steps: seq<Step>)
  {
    from + |steps| == |out| && forall j :: 0 <= j < |steps| ==> StepOk(cond, n, out, from, ctx0, steps, j)
  }

  /** Appending a step leaves the earlier steps as they were. */
  lemma SteppedExtend(cond: Dict<string, Dict<char, real>>, n: int, out: string, from: nat, ctx0: string,
                      steps: seq<Step>, x: char, s: Step)
    requires Stepped(cond, n, out, from, ctx0, steps)
    requires StepOk(cond, n, out + [x], from, ctx0, steps + [s], |steps|)
    ensures Stepped(cond, n, out + [x], from, ctx0, steps + [s])
  {
    var out', steps' := out + [x], steps + [s];
    forall j | 0 <= j < |steps|
      ensures StepOk(cond, n, out', from, ctx0, steps', j)
    {
      assert out'[..from + j] == out[..from + j];
      assert ContextAt(n, out', from, ctx0, steps', j) == ContextAt(n, out, from, ctx0, steps, j);
      assert StepOk(cond, n, out, from, ctx0, steps, j);
    }
  }

  /**
   The body of the loop of lines 69-78 for the draw `u`: a weighted draw from the row of
   `prefijo`, or else a jump to a random key, keeping its last character.
   */
  function Pass(cond: Dict<string, Dict<char, real>>, ctx: string, u: real): (r: Result<(char, Step)>)
    requires Generable(cond) && 0.0 <= u < 1.0
    ensures r.Err? <==> ctx !in cond.m && (cond.keys == [] || PickKey(cond, u) == [])
    ensures r.Err? ==> r.error == IndexError && (cond.keys == [] || [] in cond.m)
    ensures r.Ok? ==> Fits(cond, ctx, r.value.0, r.value.1)
  {
    if ctx in cond.m then Ok((PickWeightedReal(cond.m[ctx], u), Draw(ctx)))
    else if cond.keys == [] then Err(IndexError)
    else
      var k := PickKey(cond, u);
      if k == [] then Err(IndexError) else Ok((k[|k| - 1], Jump(k)))
  }

  /** One pass of the loop: the step is recorded and the next `prefijo` is the one `ContextAt` names. */
  lemma Advance(cond: Dict<string, Dict<char, real>>, n: int, out: string, from: nat, ctx0: string,
                steps: seq<Step>, x: char, s: Step)
    requires Stepped(cond, n, out, from, ctx0, steps)
    requires Fits(cond, ContextAt(n, out, from, ctx0, steps, |steps|), x, s)
    ensures Stepped(cond, n, out + [x], from, ctx0, steps + [s])
    ensures ContextAt(n, out + [x], from, ctx0, steps + [s], |steps| + 1)
         == if s.Draw? then SliceFrom(out + [x], 1 - n) else s.key
    ensures from <= |out| ==> (out + [x])[..from] == out[..from]
  {
    ContextKept(n, out, from, ctx0, steps, x, s);
    assert (out + [x])[from + |steps|] == x;
    SteppedExtend(cond, n, out, from, ctx0, steps, x, s);
    ContextNext(n, out, from, ctx0, steps, x, s);
  }

  /** Appending a step leaves the context of the steps before it alone. */
  lemma ContextKept(n: int, out: string, from: nat, ctx0: string, steps: seq<Step>, x: char, s: Step)
    requires from + |steps| == |out|
    ensures ContextAt(n, out + [x], from, ctx0, steps + [s], |steps|) == ContextAt(n, out, from, ctx0, steps, |steps|)
  {
    assert (out + [x])[..from + |steps|] == out;
    if |steps| > 0 {
      assert (steps + [s])[|steps| - 1] == steps[|steps| - 1];
      assert out[..from + |steps|] == out;
    }
  }

  /** The context after the appended step. */
  lemma ContextNext(n: int, out: string, from: nat, ctx0: string, steps: seq<Step>, x: char, s: Step)
    requires from + |steps| == |out|
    ensures ContextAt(n, out + [x], from, ctx0, steps + [s], |steps| + 1) == if s.Draw? then SliceFrom(out + [x], 1 - n) else s.key
  {
    assert (steps + [s])[|steps|] == s;
    FullSlice(out + [x]);
  }

  /**
   Lines 69-78: the loop of `generar_texto` from `resultado == start` and `prefijo == ctx0`,
   using the draws `rng(t0)`, `rng(t0 + 1)`, ... A jump to an empty key fails at `prefijo[-1]`.
   */
  method Continue(cond: Dict<string, Dict<char, real>>, n: int, start: string, ctx0: string, longitud: int,
                  rng: nat -> real, t0: nat) returns (r: Result<string>, ghost steps: seq<Step>)
    requires Generable(cond) && IsRandomSource(rng)
    ensures r.Err? ==> r.error == IndexError && (cond.keys == [] || [] in cond.m)
    ensures r.Ok? ==> |r.value| == (if longitud > |start| then longitud else |start|)
    ensures r.Ok? ==> r.value[..|start|] == start && Stepped(cond, n, r.value, |start|, ctx0, steps)
  {
    var out, ctx, t := start, ctx0, t0;
    steps := [];
    FullSlice(start);
    while |out| < longitud
      invariant Continuing(cond, n, start, ctx0, longitud, out, steps, ctx)
      decreases longitud - |out|
    {
      var pass := Pass(cond, ctx, rng(t));
      if pass.Err? {
        return Err(IndexError), steps;
      }
      var (x, s) := pass.value;
      t := t + 1;
      ContinueStep(cond, n, start, ctx0, longitud, out, steps, ctx, x, s);
      out, steps := out + [x], steps + [s];
      ctx := if s.Draw? then SliceFrom(out, 1 - n) else s.key;
    }
    r := Ok(out);
  }

  /** The invariant of the loop of `Continue`: the text so far, its steps and the current `prefijo`. */
  ghost predicate Continuing(cond: Dict<string, Dict<char, real>>, n: int, start: string, ctx0: string, longitud: int,
                             out: string, steps: seq<Step>, ctx: string)
  {
    && |start| <= |out| && (|out| > |start| ==> |out| <= longitud) && out[..|start|] == start
    && Stepped(cond, n, out, |start|, ctx0, steps)
    && ctx == ContextAt(n, out, |start|, ctx0, steps, |steps|)
  }

  lemma ContinueStep(cond: Dict<string, Dict<char, real>>, n: int, start: string, ctx0: string, longitud: int,
                     out: string, steps: seq<Step>, ctx: string, x: char, s: Step)
    requires Continuing(cond, n, start, ctx0, longitud, out, steps, ctx) && |out| < longitud && Fits(cond, ctx, x, s)
    ensures Continuing(cond, n, start, ctx0, longitud, out + [x], steps + [s], if s.Draw? then SliceFrom(out + [x], 1 - n) else s.key)
  {
    Advance(cond, n, out, |start|, ctx0, steps, x, s);
  }

  /**
   Lines 55-67: the `prefijo` the loop starts from. When `resultado[-(n-1):]` is not a key,
   the text restarts from a key chosen among those that begin with it, or among all keys.
   */
  ghost predicate Restarted(cond: Dict<string, Dict<char, real>>, inicio: string, n: int, start: string, ctx0: string)
  {
    var p := SliceFrom(inicio, 1 - n);
    && (p in cond.m ==> start == inicio && ctx0 == p)
    && (p !in cond.m ==>
          && start == ctx0 && ctx0 in cond.m
          && ((exists i :: 0 <= i < |cond.keys| && StartsWith(cond.keys[i], p)) ==> StartsWith(ctx0, p)))
  }

  /** `generar_texto` once `n` is fixed: the restart of lines 57-67, then the loop. */
  method GenerateWith(cond: Dict<string, Dict<char, real>>, inicio: string, n: int, longitud: int, rng: nat -> real)
    returns (r: Result<string>, ghost start: string, ghost ctx0: string, ghost steps: seq<Step>)
    requires Generable(cond) && IsRandomSource(rng) && cond.keys != []
    ensures Restarted(cond, inicio, n, start, ctx0)
    ensures r.Err? ==> r.error == IndexError && [] in cond.m
    ensures r.Ok? ==> |r.value| == (if longitud > |start| then longitud else |start|)
    ensures r.Ok? ==> r.value[..|start|] == start && Stepped(cond, n, r.value, |start|, ctx0, steps)
  {
    var resultado, prefijo, t := inicio, SliceFrom(inicio, 1 - n), 0;
    if prefijo !in cond.m {
      var posibles := WithPrefix(cond.keys, prefijo);
      if posibles != [] {
        prefijo := posibles[ChoiceIndex(|posibles|, rng(0))];
      } else {
        prefijo := PickKey(cond, rng(0));
      }
      resultado, t := prefijo, 1;
    }
    start, ctx0 := resultado, prefijo;
    r, steps := Continue(cond, n, resultado, prefijo, longitud, rng, t);
  }

  /**
   `generar_texto(cond, inicio, longitud)` as written: `n` is the length of the first key
   (an `IndexError` when there is none), and the context kept is `resultado[-(n-1):]`.
   */
  method GenerateText(cond: Dict<string, Dict<char, real>>, inicio: string, longitud: int, rng: nat -> real)
    returns (r: Result<string>, ghost start: string, ghost ctx0: string, ghost steps: seq<Step>)
    requires Generable(cond) && IsRandomSource(rng)
    ensures cond.keys == [] ==> r == Err(IndexError)
    ensures r.Err? ==> r.error == IndexError && (cond.keys == [] || [] in cond.m)
    ensures cond.keys != [] ==> Restarted(cond, inicio, |cond.keys[0]|, start, ctx0)
    ensures r.Ok? ==> cond.keys != [] && |r.value| == (if longitud > |start| then longitud else |start|)
    ensures r.Ok? ==> r.value[..|start|] == start && Stepped(cond, |cond.keys[0]|, r.value, |start|, ctx0, steps)
  {
    if cond.keys == [] {
      return Err(IndexError), [], [], [];
    }
    r, start, ctx0, steps := GenerateWith(cond, inicio, |cond.keys[0]|, longitud, rng);
  }

  /**
   The corrected `generar_texto`: the keys are contexts of `len(key)` characters, so the
   context kept is `resultado[-len(key):]`, i.e. `n = len(key) + 1`.
   */
  method GenerateTextFixed(cond: Dict<string, Dict<char, real>>, inicio: string, longitud: int, rng: nat -> real)
    returns (r: Result<string>, ghost start: string, ghost ctx0: string, ghost steps: seq<Step>)
    requires Generable(cond) && IsRandomSource(rng)
    ensures cond.keys == [] ==> r == Err(IndexError)
    ensures r.Err? ==> r.error == IndexError && (cond.keys == [] || [] in cond.m)
    ensures cond.keys != [] ==> Restarted(cond, inicio, |cond.keys[0]| + 1, start, ctx0)
    ensures r.Ok? ==> cond.keys != [] && |r.value| == (if longitud > |start| then longitud else |start|)
    ensures r.Ok? ==> r.value[..|start|] == start && Stepped(cond, |cond.keys[0]| + 1, r.value, |start|, ctx0, steps)
  {
    if cond.keys == [] {
      return Err(IndexError), [], [], [];
    }
    r, start, ctx0, steps := GenerateWith(cond, inicio, |cond.keys[0]| + 1, longitud, rng);
  }

  /** All contexts have the same length, as in a table built by `distribucion_conjunta_condicional`. */
  ghost predicate UniformKeys(cond: Dict<string, Dict<char, real>>, len: nat)
  {
    forall k :: k in cond.m ==> |k| == len
  }

  /** The contexts of the conditional distribution of n-grams are the n - 1 character prefixes. */
  lemma CondUniform(text: string, n: nat, cond: Dict<string, Dict<char, real>>)
    requires CondIs(text, n, cond) && n >= 1
    ensures UniformKeys(cond, n - 1)
  {
    forall p | p in cond.m
      ensures |p| == n - 1
    {
      var x := cond.m[p].keys[0];
      assert x in cond.m[p].m;
    }
  }

  /** A draw from a conditional distribution of the text appends a character that follows its context in the text. */
  lemma DrawFollows(text: string, n': nat, cond: Dict<string, Dict<char, real>>, n: int, out: string, from: nat,
                    ctx0: string, steps: seq<Step>, j: nat)
    requires CondIs(text, n', cond) && Stepped(cond, n, out, from, ctx0, steps)
    requires j < |steps| && steps[j].Draw?
    ensures Follows(text, steps[j].context, out[from + j], Starts(|text|, n')) > 0
  {
    assert StepOk(cond, n, out, from, ctx0, steps, j);
  }

  /** Whatever the restart does, the text the loop starts from is at least as long as a key. */
  lemma RestartLength(cond: Dict<string, Dict<char, real>>, inicio: string, n: int, start: string, ctx0: string, len: nat)
    requires UniformKeys(cond, len) && Restarted(cond, inicio, n, start, ctx0)
    ensures |start| >= len
  {
  }

  /**
   As written, with contexts of `len >= 1` characters: `resultado[-(n-1):]` with `n = len`
   keeps `len - 1` characters (all of them when `len == 1`), which is never a key, so every
   draw is followed by a jump to a random key.
   */
  lemma AsWrittenAlternates(cond: Dict<string, Dict<char, real>>, len: nat, out: string, from: nat, ctx0: string,
                            steps: seq<Step>, j: nat)
    requires len >= 1 && UniformKeys(cond, len) && Stepped(cond, len, out, from, ctx0, steps) && from >= len
    requires 0 < j < |steps| && steps[j - 1].Draw?
    ensures steps[j].Jump?
  {
    var w := out[..from + j];
    var c := ContextAt(len, out, from, ctx0, steps, j);
    assert c == SliceFrom(w, 1 - len);
    SliceFromNegative(w, len - 1);
    assert |c| != len;
    assert StepOk(cond, len, out, from, ctx0, steps, j);
  }

  /**
   Corrected, with contexts of `len >= 1` characters: after a draw the context is the last
   `len` characters of the text, and when they are a key the next character is drawn from
   their row.
   */
  lemma FixedFollowsSuffix(cond: Dict<string, Dict<char, real>>, len: nat, out: string, from: nat, ctx0: string,
                           steps: seq<Step>, j: nat)
    requires len >= 1 && Stepped(cond, len + 1, out, from, ctx0, steps) && from >= len
    requires 0 < j < |steps| && steps[j - 1].Draw?
    ensures ContextAt(len + 1, out, from, ctx0, steps, j) == out[from + j - len..from + j]
    ensures out[from + j - len..from + j] in cond.m ==> steps[j] == Draw(out[from + j - len..from + j])
  {
    var w := out[..from + j];
    SliceFromNegative(w, len);
    assert w[|w| - len..] == out[from + j - len..from + j];
    assert StepOk(cond, len + 1, out, from, ctx0, steps, j);
  }

  // ---------------------------------------------------------------------------
  // p_pal_cond

  /** `[(palabras[i], palabras[i+1]) for i in range(len(palabras)-1)]` */
  function Pairs(ws: seq<string>): (r: seq<(string, string)>)
    ensures |r| == if |ws| > 0 then |ws| - 1 else 0
    ensures forall i :: 0 <= i < |r| ==> r[i] == (ws[i], ws[i + 1])
  {
    var len := if |ws| > 0 then |ws| - 1 else 0;
    seq(len, i requires 0 <= i < len => (ws[i], ws[i + 1]))
  }

  /** `w1 == a` for a pair `(w1, w2)` */
  function FirstIs(a: string): ((string, string)) -> bool
  {
    (p: (string, string)) => p.0 == a
  }

  /** The pair list holds each pair as often as the words occur next to each other. */
  lemma PairsCount(ws: seq<string>, k: nat, a: string, b: string)
    requires k <= |Pairs(ws)|
    ensures multiset(Pairs(ws)[..k])[(a, b)] == PairCount(ws, a, b, k)
  {
    PairsCountOf(ws, Pairs(ws), k, a, b);
  }

  /** The same, for any list that holds the pairs of `ws` in order. */
  lemma {:induction false} PairsCountOf(ws: seq<string>, s: seq<(string, string)>, k: nat, a: string, b: string)
    requires k <= |s| && (s != [] ==> |s| < |ws|) && forall i :: 0 <= i < |s| ==> s[i] == (ws[i], ws[i + 1])
    ensures multiset(s[..k])[(a, b)] == PairCount(ws, a, b, k)
  {
    if k > 0 {
      var p := s[k - 1];
      assert k < |ws| && p == (ws[k - 1], ws[k]);
      var hit := ws[k - 1] == a && ws[k] == b;
      assert multiset(s[..k])[(a, b)] == multiset(s[..k - 1])[(a, b)] + if hit then 1 else 0 by {
        MultisetPrefixLast(s, k, (a, b));
      }
      PairsCountOf(ws, s, k - 1, a, b);
    }
  }

  /** Extending a prefix by one entry counts that entry once more. */
  lemma MultisetPrefixLast<T>(s: seq<T>, k: nat, x: T)
    requires 0 < k <= |s|
    ensures multiset(s[..k])[x] == multiset(s[..k - 1])[x] + if s[k - 1] == x then 1 else 0
  {
    assert s[..k] == s[..k - 1] + [s[k - 1]];
  }

  /** The pairs that start with `a` are the occurrences of `a` that have a successor. */
  lemma {:induction false} PairsFirst(ws: seq<string>, k: nat, a: string)
    requires k <= |Pairs(ws)|
    ensures CountWhere(Pairs(ws)[..k], FirstIs(a)) == WordCount(ws, a, k)
  {
    if k > 0 {
      var s := Pairs(ws);
      PairsFirst(ws, k - 1, a);
      assert s[..k][..k - 1] == s[..k - 1];
    }
  }

  /** `Counter(palabras)[a]` is the number of occurrences of `a`. */
  lemma {:induction false} WordsCount(ws: seq<string>, k: nat, a: string)
    requires k <= |ws|
    ensures multiset(ws[..k])[a] == WordCount(ws, a, k)
  {
    if k > 0 {
      WordsCount(ws, k - 1, a);
      assert ws[..k] == ws[..k - 1] + [ws[k - 1]];
    }
  }

  /** The two `Counter`s of lines 87-88, with every pair's first word counted. */
  ghost predicate Counts(pc: Dict<(string, string), nat>, cnt: Dict<string, nat>)
  {
    Dicts.Valid(pc) && Dicts.Valid(cnt) && forall p :: p in pc.m ==> p.0 in cnt.m && cnt.m[p.0] > 0
  }

  /** `table[k[0]][k[1]] == v` */
  ghost predicate TableCell(table: Dict<string, Dict<string, real>>, k: (string, string), v: real)
  {
    k.0 in table.m && k.1 in table.m[k.0].m && table.m[k.0].m[k.1] == v
  }

  /** Each of the first i pairs has its cell `c / cont_pal[w1]`. */
  ghost predicate TableDone(pc: Dict<(string, string), nat>, cnt: Dict<string, nat>, i: nat, table: Dict<string, Dict<string, real>>)
    requires Counts(pc, cnt) && i <= |pc.keys|
  {
    forall j :: 0 <= j < i ==> TableCell(table, pc.keys[j], pc.m[pc.keys[j]] as real / cnt.m[pc.keys[j].0] as real)
  }

  /** Every cell comes from one of the first i pairs. */
  ghost predicate TableSound(pc: Dict<(string, string), nat>, i: nat, table: Dict<string, Dict<string, real>>)
    requires i <= |pc.keys|
  {
    forall a, b :: a in table.m && b in table.m[a].m ==> exists j :: 0 <= j < i && pc.keys[j] == (a, b)
  }

  /** Each row adds up to the counts of the first i pairs that start with its word, over that word's count. */
  ghost predicate TableSums(pc: Dict<(string, string), nat>, cnt: Dict<string, nat>, i: nat, table: Dict<string, Dict<string, real>>)
    requires Counts(pc, cnt) && i <= |pc.keys| && RowsValid(table)
  {
    forall a :: RowSumOk(pc, cnt, i, table, a)
  }

  /** The row of `a`, if any, adds up to the counts of the first i pairs starting with `a` over the count of `a`. */
  ghost predicate RowSumOk(pc: Dict<(string, string), nat>, cnt: Dict<string, nat>, i: nat, table: Dict<string, Dict<string, real>>, a: string)
    requires Counts(pc, cnt) && i <= |pc.keys| && RowsValid(table)
  {
    && (a in table.m ==>
          && table.m[a].keys != [] && a in cnt.m && cnt.m[a] > 0
          && Sum(Values(table.m[a])) == SumWhere(pc.keys[..i], pc.m, FirstIs(a)) as real / cnt.m[a] as real)
    && (a !in table.m ==> SumWhere(pc.keys[..i], pc.m, FirstIs(a)) == 0)
  }

  ghost predicate TableInv(pc: Dict<(string, string), nat>, cnt: Dict<string, nat>, i: nat, table: Dict<string, Dict<string, real>>)
  {
    && Counts(pc, cnt) && i <= |pc.keys| && Dicts.Valid(table) && RowsValid(table)
    && TableDone(pc, cnt, i, table) && TableSound(pc, i, table) && TableSums(pc, cnt, i, table)
  }

  /** `table[w1][w2] = v` */
  function PutCell(table: Dict<string, Dict<string, real>>, k: (string, string), v: real): (r: Dict<string, Dict<string, real>>)
    requires Dicts.Valid(table) && RowsValid(table)
    ensures Dicts.Valid(r) && RowsValid(r)
    ensures k.0 in r.m && r.m[k.0] == Put(Get(table, k.0, Empty()), k.1, v)
    ensures forall a :: a != k.0 ==> (a in r.m <==> a in table.m) && (a in table.m ==> r.m[a] == table.m[a])
  {
    Put(table, k.0, Put(Get(table, k.0, Empty()), k.1, v))
  }

  /** The table after pair i got its cell `c / cont_pal[w1]`. */
  function Filled(pc: Dict<(string, string), nat>, cnt: Dict<string, nat>, i: nat, table: Dict<string, Dict<string, real>>): (r: Dict<string, Dict<string, real>>)
    requires Counts(pc, cnt) && i < |pc.keys| && Dicts.Valid(table) && RowsValid(table)
    ensures Dicts.Valid(r) && RowsValid(r)
  {
    PutCell(table, pc.keys[i], pc.m[pc.keys[i]] as real / cnt.m[pc.keys[i].0] as real)
  }

  /** The pairs and words `Counter`s of a word list satisfy `Counts`. */
  lemma CountsOf(ws: seq<string>)
    ensures Counts(CounterOf(Pairs(ws)), CounterOf(ws))
  {
    var pc, cnt := CounterOf(Pairs(ws)), CounterOf(ws);
    forall p | p in pc.m
      ensures p.0 in cnt.m && cnt.m[p.0] > 0
    {
      PairInWords(ws, p);
    }
  }

  lemma PairInWords(ws: seq<string>, p: (string, string))
    requires p in CounterOf(Pairs(ws)).m
    ensures p.0 in CounterOf(ws).m && CounterOf(ws).m[p.0] > 0
  {
    var s := Pairs(ws);
    assert p in s;
    var i :| 0 <= i < |s| && s[i] == p;
    assert ws[i] == p.0;
    assert p.0 in ws;
    assert p.0 in multiset(ws);
  }

  /** Adding a new key appends its value to the values. */
  lemma ValuesPutFresh<K(!new)>(row: Dict<K, real>, x: K, v: real)
    requires Dicts.Valid(row) && x !in row.m
    ensures Values(Put(row, x, v)) == Values(row) + [v]
  {
  }

  /** Filling in pair i keeps the invariant. */
  lemma TableStep(pc: Dict<(string, string), nat>, cnt: Dict<string, nat>, i: nat, table: Dict<string, Dict<string, real>>)
    requires TableInv(pc, cnt, i, table) && i < |pc.keys|
    ensures TableInv(pc, cnt, i + 1, Filled(pc, cnt, i, table))
  {
    TableFresh(pc, i, table);
    TableStepDone(pc, cnt, i, table);
    TableStepSound(pc, i, table, pc.m[pc.keys[i]] as real / cnt.m[pc.keys[i].0] as real);
    TableStepSums(pc, cnt, i, table);
  }

  /** The pair being filled in has no cell yet, since the pairs are distinct. */
  lemma TableFresh(pc: Dict<(string, string), nat>, i: nat, table: Dict<string, Dict<string, real>>)
    requires Dicts.Valid(pc) && i < |pc.keys| && TableSound(pc, i, table)
    ensures var k := pc.keys[i]; !(k.0 in table.m && k.1 in table.m[k.0].m)
  {
    var k := pc.keys[i];
    assert forall j :: 0 <= j < i ==> pc.keys[j] != (k.0, k.1);
  }

  lemma TableStepDone(pc: Dict<(string, string), nat>, cnt: Dict<string, nat>, i: nat, table: Dict<string, Dict<string, real>>)
    requires Counts(pc, cnt) && i < |pc.keys| && Dicts.Valid(table) && RowsValid(table) && TableDone(pc, cnt, i, table)
    requires var k := pc.keys[i]; !(k.0 in table.m && k.1 in table.m[k.0].m)
    ensures TableDone(pc, cnt, i + 1, Filled(pc, cnt, i, table))
  {
    var k := pc.keys[i];
    var v := pc.m[k] as real / cnt.m[k.0] as real;
    forall j | 0 <= j < i + 1
      ensures TableCell(PutCell(table, k, v), pc.keys[j], pc.m[pc.keys[j]] as real / cnt.m[pc.keys[j].0] as real)
    {
      if j < i {
        assert pc.keys[j] != k;
        CellKept(table, k, v, pc.keys[j], pc.m[pc.keys[j]] as real / cnt.m[pc.keys[j].0] as real);
      }
    }
  }

  /** Writing one cell keeps every other cell. */
  lemma CellKept(table: Dict<string, Dict<string, real>>, k: (string, string), v: real, q: (string, string), w: real)
    requires Dicts.Valid(table) && RowsValid(table) && q != k && TableCell(table, q, w)
    ensures TableCell(PutCell(table, k, v), q, w)
  {
  }


  lemma TableStepSound(pc: Dict<(string, string), nat>, i: nat, table: Dict<string, Dict<string, real>>, v: real)
    requires Dicts.Valid(pc) && i < |pc.keys| && Dicts.Valid(table) && RowsValid(table) && TableSound(pc, i, table)
    ensures TableSound(pc, i + 1, PutCell(table, pc.keys[i], v))
  {
    var k := pc.keys[i];
    var r := PutCell(table, k, v);
    forall a, b | a in r.m && b in r.m[a].m
      ensures exists j :: 0 <= j < i + 1 && pc.keys[j] == (a, b)
    {
      if (a, b) == k {
        assert pc.keys[i] == (a, b);
      } else {
        assert a in table.m && b in table.m[a].m;
        var j :| 0 <= j < i && pc.keys[j] == (a, b);
      }
    }
  }

  lemma TableStepSums(pc: Dict<(string, string), nat>, cnt: Dict<string, nat>, i: nat, table: Dict<string, Dict<string, real>>)
    requires Counts(pc, cnt) && i < |pc.keys| && Dicts.Valid(table) && RowsValid(table) && TableSums(pc, cnt, i, table)
    requires var k := pc.keys[i]; !(k.0 in table.m && k.1 in table.m[k.0].m)
    ensures TableSums(pc, cnt, i + 1, Filled(pc, cnt, i, table))
  {
    var r := Filled(pc, cnt, i, table);
    forall a {:trigger RowSumOk(pc, cnt, i + 1, r, a)}
      ensures RowSumOk(pc, cnt, i + 1, r, a)
    {
      TableSumsAt(pc, cnt, i, table, a);
    }
  }

  lemma TableSumsAt(pc: Dict<(string, string), nat>, cnt: Dict<string, nat>, i: nat, table: Dict<string, Dict<string, real>>, a: string)
    requires Counts(pc, cnt) && i < |pc.keys| && Dicts.Valid(table) && RowsValid(table)
    requires var k := pc.keys[i]; !(k.0 in table.m && k.1 in table.m[k.0].m)
    requires RowSumOk(pc, cnt, i, table, a)
    ensures RowSumOk(pc, cnt, i + 1, Filled(pc, cnt, i, table), a)
  {
    var k := pc.keys[i];
    var r := Filled(pc, cnt, i, table);
    SumWhereNext(pc, i, FirstIs(a));
    if a == k.0 {
      TableSumsHead(pc, cnt, i, table);
      assert r.m[a] == Put(Get(table, a, Empty()), k.1, pc.m[k] as real / cnt.m[a] as real);
      assert k.1 in r.m[a].m;
    } else {
      assert !FirstIs(a)(k);
      assert SumWhere(pc.keys[..i + 1], pc.m, FirstIs(a)) == SumWhere(pc.keys[..i], pc.m, FirstIs(a));
      assert (a in r.m <==> a in table.m) && (a in table.m ==> r.m[a] == table.m[a]);
    }
  }

  /** The row of the pair's first word gains the pair's share. */
  lemma TableSumsHead(pc: Dict<(string, string), nat>, cnt: Dict<string, nat>, i: nat, table: Dict<string, Dict<string, real>>)
    requires Counts(pc, cnt) && i < |pc.keys| && Dicts.Valid(table) && RowsValid(table)
    requires var k := pc.keys[i]; !(k.0 in table.m && k.1 in table.m[k.0].m)
    requires var a := pc.keys[i].0;
      && (a in table.m ==> Sum(Values(table.m[a])) == SumWhere(pc.keys[..i], pc.m, FirstIs(a)) as real / cnt.m[a] as real)
      && (a !in table.m ==> SumWhere(pc.keys[..i], pc.m, FirstIs(a)) == 0)
    requires var a := pc.keys[i].0;
      SumWhere(pc.keys[..i + 1], pc.m, FirstIs(a)) == SumWhere(pc.keys[..i], pc.m, FirstIs(a)) + pc.m[pc.keys[i]]
    ensures var a := pc.keys[i].0; var r := PutCell(table, pc.keys[i], pc.m[pc.keys[i]] as real / cnt.m[a] as real);
      Sum(Values(r.m[a])) == SumWhere(pc.keys[..i + 1], pc.m, FirstIs(a)) as real / cnt.m[a] as real
  {
    var k := pc.keys[i];
    var a := k.0;
    var r := PutCell(table, k, pc.m[k] as real / cnt.m[a] as real);
    var row := Get(table, a, Empty());
    RowAppendSum(row, a in table.m, k.1, SumWhere(pc.keys[..i], pc.m, FirstIs(a)), pc.m[k], cnt.m[a],
                 r.m[a], SumWhere(pc.keys[..i + 1], pc.m, FirstIs(a)));
  }

  /** A row whose values add up to `before / c` (an absent row: nothing) gains `w / c` with a new key. */
  lemma RowAppendSum<K(!new)>(row: Dict<K, real>, present: bool, x: K, before: nat, w: nat, c: nat,
                              row': Dict<K, real>, after: nat)
    requires Dicts.Valid(row) && x !in row.m && c > 0
    requires present ==> Sum(Values(row)) == before as real / c as real
    requires !present ==> row == Empty() && before == 0
    requires row' == Put(row, x, w as real / c as real) && after == before + w
    ensures Sum(Values(row')) == after as real / c as real
  {
    var v := w as real / c as real;
    ValuesPutFresh(row, x, v);
    SumAppend(Values(row), [v]);
    assert Sum([v]) == v;
    if !present {
      assert Values(row) == [];
    }
  }

  /** The cells of the table are the pairs of consecutive words. */
  ghost predicate WordCells(ws: seq<string>, table: Dict<string, Dict<string, real>>)
  {
    forall a, b :: a in table.m && b in table.m[a].m <==> PairCount(ws, a, b, |ws|) > 0
  }

  /** A cell holds the share of the occurrences of its first word that its second word follows. */
  ghost predicate WordValues(ws: seq<string>, table: Dict<string, Dict<string, real>>)
  {
    forall a, b :: a in table.m && b in table.m[a].m ==>
      WordCount(ws, a, |ws|) > 0 && table.m[a].m[b] == PairCount(ws, a, b, |ws|) as real / WordCount(ws, a, |ws|) as real
  }

  /** A row adds up to the share of the occurrences of its word that have a successor. */
  ghost predicate WordRowSums(ws: seq<string>, table: Dict<string, Dict<string, real>>)
    requires Dicts.Valid(table) && RowsValid(table)
  {
    forall a :: a in table.m ==>
      WordCount(ws, a, |ws|) > 0 && Sum(Values(table.m[a])) == WordCount(ws, a, |Pairs(ws)|) as real / WordCount(ws, a, |ws|) as real
  }

  /** `p_pal_cond` of the word list `ws`. */
  ghost predicate WordTableIs(ws: seq<string>, table: Dict<string, Dict<string, real>>)
  {
    && Dicts.Valid(table) && RowsValid(table)
    && (forall a :: a in table.m ==> table.m[a].keys != [])
    && WordCells(ws, table) && WordValues(ws, table) && WordRowSums(ws, table)
  }

  /**
   Lines 85-92: the words of `texto`, the `Counter`s of their pairs and of the words, and
   `p_pal_cond[w1][w2] = c / cont_pal[w1]` for every pair.
   */
  method WordConditional(texto: string) returns (table: Dict<string, Dict<string, real>>)
    ensures WordTableIs(Normalizer.Words(texto), table)
  {
    var palabras := Normalizer.Words(texto);
    var pares := Pairs(palabras);
    var pc := CounterOf(pares);
    var cnt := CounterOf(palabras);
    CountsOf(palabras);
    table := FillTable(pc, cnt);
    TableFinal(palabras, pc, cnt, table);
  }

  /** Lines 90-92: the loop over the pair counts, each pair getting `c / cont_pal[w1]`. */
  method FillTable(pc: Dict<(string, string), nat>, cnt: Dict<string, nat>) returns (table: Dict<string, Dict<string, real>>)
    requires Counts(pc, cnt)
    ensures TableInv(pc, cnt, |pc.keys|, table)
  {
    table := Empty();
    var i := 0;
    while i < |pc.keys|
      invariant TableInv(pc, cnt, i, table)
    {
      TableStep(pc, cnt, i, table);
      table := Filled(pc, cnt, i, table);
      i := i + 1;
    }
  }

  /** Once every pair has its cell, the table is the conditional table of the words. */
  lemma TableFinal(ws: seq<string>, pc: Dict<(string, string), nat>, cnt: Dict<string, nat>, table: Dict<string, Dict<string, real>>)
    requires pc == CounterOf(Pairs(ws)) && cnt == CounterOf(ws) && TableInv(pc, cnt, |pc.keys|, table)
    ensures WordTableIs(ws, table)
  {
    TableFinalCells(ws, pc, cnt, table);
    CounterEntries(ws);
    TableFinalValues(ws, pc, cnt, table);
    TableFinalSums(ws, pc, cnt, table);
    forall a | a in table.m
      ensures table.m[a].keys != []
    {
      assert RowSumOk(pc, cnt, |pc.keys|, table, a);
    }
  }

  lemma TableFinalCells(ws: seq<string>, pc: Dict<(string, string), nat>, cnt: Dict<string, nat>, table: Dict<string, Dict<string, real>>)
    requires pc == CounterOf(Pairs(ws)) && cnt == CounterOf(ws) && Counts(pc, cnt)
    requires TableDone(pc, cnt, |pc.keys|, table) && TableSound(pc, |pc.keys|, table)
    ensures WordCells(ws, table)
  {
    forall a, b
      ensures a in table.m && b in table.m[a].m <==> PairCount(ws, a, b, |ws|) > 0
    {
      PairCounter(ws, a, b);
      TableCellIff(ws, pc, cnt, table, a, b);
    }
  }

  lemma TableFinalValues(ws: seq<string>, pc: Dict<(string, string), nat>, cnt: Dict<string, nat>, table: Dict<string, Dict<string, real>>)
    requires Counts(pc, cnt) && TableDone(pc, cnt, |pc.keys|, table) && TableSound(pc, |pc.keys|, table)
    requires forall a, b :: (a, b) in pc.m ==> pc.m[(a, b)] == PairCount(ws, a, b, |ws|)
    requires forall a :: a in cnt.m ==> cnt.m[a] == WordCount(ws, a, |ws|)
    ensures WordValues(ws, table)
  {
    forall a, b | a in table.m && b in table.m[a].m
      ensures WordCount(ws, a, |ws|) > 0 && table.m[a].m[b] == PairCount(ws, a, b, |ws|) as real / WordCount(ws, a, |ws|) as real
    {
      TableCellValue(ws, pc, cnt, table, a, b);
    }
  }

  /** The entries of the two `Counter`s are the pair and word counts of the words. */
  lemma CounterEntries(ws: seq<string>)
    ensures forall a, b :: (a, b) in CounterOf(Pairs(ws)).m ==> CounterOf(Pairs(ws)).m[(a, b)] == PairCount(ws, a, b, |ws|)
    ensures forall a :: a in CounterOf(ws).m ==> CounterOf(ws).m[a] == WordCount(ws, a, |ws|)
  {
    forall a, b | (a, b) in CounterOf(Pairs(ws)).m
      ensures CounterOf(Pairs(ws)).m[(a, b)] == PairCount(ws, a, b, |ws|)
    {
      PairCounter(ws, a, b);
    }
    forall a | a in CounterOf(ws).m
      ensures CounterOf(ws).m[a] == WordCount(ws, a, |ws|)
    {
      WordCounter(ws, a);
    }
  }

  lemma TableFinalSums(ws: seq<string>, pc: Dict<(string, string), nat>, cnt: Dict<string, nat>, table: Dict<string, Dict<string, real>>)
    requires pc == CounterOf(Pairs(ws)) && cnt == CounterOf(ws) && Counts(pc, cnt)
    requires Dicts.Valid(table) && RowsValid(table) && TableSums(pc, cnt, |pc.keys|, table)
    ensures WordRowSums(ws, table)
  {
    forall a | a in table.m
      ensures WordCount(ws, a, |ws|) > 0 && Sum(Values(table.m[a])) == WordCount(ws, a, |Pairs(ws)|) as real / WordCount(ws, a, |ws|) as real
    {
      WordCounter(ws, a);
      CounterSumWhere(Pairs(ws), FirstIs(a));
      PairsFirst(ws, |Pairs(ws)|, a);
      FullSlice(Pairs(ws));
      TableRowSum(ws, pc, cnt, table, a);
    }
  }

  /** The last word starts no pair. */
  lemma PairCountEnd(ws: seq<string>, a: string, b: string)
    ensures PairCount(ws, a, b, |ws|) == PairCount(ws, a, b, |Pairs(ws)|)
  {
  }

  /** `cont_pal[a]` */
  lemma WordCounter(ws: seq<string>, a: string)
    ensures a in CounterOf(ws).m ==> CounterOf(ws).m[a] == WordCount(ws, a, |ws|)
  {
    WordsCount(ws, |ws|, a);
    FullSlice(ws);
  }

  /** `cont_pares[(a, b)]` */
  lemma PairCounter(ws: seq<string>, a: string, b: string)
    ensures (a, b) in CounterOf(Pairs(ws)).m <==> PairCount(ws, a, b, |ws|) > 0
    ensures (a, b) in CounterOf(Pairs(ws)).m ==> CounterOf(Pairs(ws)).m[(a, b)] == PairCount(ws, a, b, |ws|)
  {
    var s := Pairs(ws);
    PairsCount(ws, |s|, a, b);
    FullSlice(s);
    PairCountEnd(ws, a, b);
  }

  /** A cell is there exactly when its pair was counted. */
  lemma TableCellIff(ws: seq<string>, pc: Dict<(string, string), nat>, cnt: Dict<string, nat>, table: Dict<string, Dict<string, real>>, a: string, b: string)
    requires Counts(pc, cnt) && TableDone(pc, cnt, |pc.keys|, table) && TableSound(pc, |pc.keys|, table)
    requires (a, b) in pc.m <==> PairCount(ws, a, b, |ws|) > 0
    ensures a in table.m && b in table.m[a].m <==> PairCount(ws, a, b, |ws|) > 0
  {
    if a in table.m && b in table.m[a].m {
      var j :| 0 <= j < |pc.keys| && pc.keys[j] == (a, b);
      assert pc.keys[j] in pc.m;
    }
    if (a, b) in pc.m {
      var j :| 0 <= j < |pc.keys| && pc.keys[j] == (a, b);
      assert TableCell(table, pc.keys[j], pc.m[pc.keys[j]] as real / cnt.m[pc.keys[j].0] as real);
    }
  }

  /** A cell holds the count of its pair over the count of its first word. */
  lemma TableCellValue(ws: seq<string>, pc: Dict<(string, string), nat>, cnt: Dict<string, nat>, table: Dict<string, Dict<string, real>>, a: string, b: string)
    requires Counts(pc, cnt) && TableDone(pc, cnt, |pc.keys|, table) && TableSound(pc, |pc.keys|, table)
    requires (a, b) in pc.m ==> pc.m[(a, b)] == PairCount(ws, a, b, |ws|)
    requires a in cnt.m ==> cnt.m[a] == WordCount(ws, a, |ws|)
    requires a in table.m && b in table.m[a].m
    ensures WordCount(ws, a, |ws|) > 0
    ensures table.m[a].m[b] == PairCount(ws, a, b, |ws|) as real / WordCount(ws, a, |ws|) as real
  {
    var j :| 0 <= j < |pc.keys| && pc.keys[j] == (a, b);
    assert pc.keys[j] in pc.m;
    assert TableCell(table, pc.keys[j], pc.m[pc.keys[j]] as real / cnt.m[pc.keys[j].0] as real);
  }

  /** A row adds up to the counts of the pairs its word starts, over the count of the word. */
  lemma TableRowSum(ws: seq<string>, pc: Dict<(string, string), nat>, cnt: Dict<string, nat>, table: Dict<string, Dict<string, real>>, a: string)
    requires Counts(pc, cnt) && Dicts.Valid(table) && RowsValid(table) && TableSums(pc, cnt, |pc.keys|, table)
    requires a in cnt.m ==> cnt.m[a] == WordCount(ws, a, |ws|)
    requires SumWhere(pc.keys, pc.m, FirstIs(a)) == WordCount(ws, a, |Pairs(ws)|)
    requires a in table.m
    ensures WordCount(ws, a, |ws|) > 0
    ensures Sum(Values(table.m[a])) == WordCount(ws, a, |Pairs(ws)|) as real / WordCount(ws, a, |ws|) as real
  {
    FullSlice(pc.keys);
    assert RowSumOk(pc, cnt, |pc.keys|, table, a);
  }

  /** A row adds up to one exactly when its word is not the last word of the text, and to less than one otherwise. */
  lemma RowSumLast(ws: seq<string>, a: string)
    requires WordCount(ws, a, |ws|) > 0
    ensures WordCount(ws, a, |Pairs(ws)|) as real / WordCount(ws, a, |ws|) as real <= 1.0
    ensures WordCount(ws, a, |Pairs(ws)|) as real / WordCount(ws, a, |ws|) as real == 1.0 <==> ws[|ws| - 1] != a
  {
    var c, c' := WordCount(ws, a, |ws|), WordCount(ws, a, |Pairs(ws)|);
    assert c == c' + if ws[|ws| - 1] == a then 1 else 0;
    assert c' as real / c as real * c as real == c' as real <= c as real;
    if c' as real / c as real == 1.0 {
      assert c' as real == c as real;
    }
  }

  /** The word table of a text can drive `generar_palabras`. */
  lemma WordTableGenerable(ws: seq<string>, table: Dict<string, Dict<string, real>>)
    requires WordTableIs(ws, table)
    ensures Generable(table)
  {
    forall a, b | a in table.m && b in table.m[a].m
      ensures table.m[a].m[b] > 0.0
    {
      assert PairCount(ws, a, b, |ws|) > 0;
      SharePositive(PairCount(ws, a, b, |ws|), WordCount(ws, a, |ws|));
    }
  }

  lemma SharePositive(c: nat, t: nat)
    requires c > 0 && t > 0
    ensures c as real / t as real > 0.0
  {
  }

  // -------------------------------------------------------------------------------------
  // generar_palabras, lines 95-107
  // -------------------------------------------------------------------------------------

  /** How a word came to be appended: drawn from the row of the previous word, or from the row of a random key. */
  datatype WordStep = Follow(prev: string) | Restart(key: string)

  /** The word `w` appended after `prev` agrees with the step `s`. */
  ghost predicate WordFits(cond: Dict<string, Dict<string, real>>, prev: string, w: string, s: WordStep)
  {
    match s
    case Follow(p) => p == prev && p in cond.m && w in cond.m[p].m
    case Restart(k) => prev !in cond.m && k in cond.m && w in cond.m[k].m
  }

  /** The words of `out` after the first `from` were appended by `steps`, each after the word before it. */
  ghost predicate WordStepped(cond: Dict<string, Dict<string, real>>, out: seq<string>, from: nat, steps: seq<WordStep>)
  {
    && 1 <= from && from + |steps| == |out|
    && forall j :: 0 <= j < |steps| ==> WordFits(cond, out[from + j - 1], out[from + j], steps[j])
  }

  /**
   The body of the loop of lines 97-105 for the draws `u` and `u'`: a weighted draw from the
   row of `pref`, or else a uniform key and a uniform word of its row. The number says how
   many draws were used. `random.choice` of an empty key list raises an `IndexError`.
   */
  function WordPass(cond: Dict<string, Dict<string, real>>, pref: string, u: real, u': real): (r: Result<(string, WordStep, nat)>)
    requires Generable(cond) && 0.0 <= u < 1.0 && 0.0 <= u' < 1.0
    ensures r.Err? <==> cond.keys == []
    ensures r.Err? ==> r.error == IndexError
    ensures r.Ok? ==> WordFits(cond, pref, r.value.0, r.value.1) && 1 <= r.value.2 <= 2
  {
    if pref in cond.m then Ok((PickWeightedReal(cond.m[pref], u), Follow(pref), 1))
    else if cond.keys == [] then Err(IndexError)
    else
      var k := PickKey(cond, u);
      Ok((PickKey(cond.m[k], u'), Restart(k), 2))
  }

  lemma WordAdvance(cond: Dict<string, Dict<string, real>>, out: seq<string>, from: nat, steps: seq<WordStep>,
                    w: string, s: WordStep)
    requires WordStepped(cond, out, from, steps) && WordFits(cond, out[|out| - 1], w, s)
    ensures WordStepped(cond, out + [w], from, steps + [s])
    ensures (out + [w])[..from] == out[..from]
  {
    var out', steps' := out + [w], steps + [s];
    forall j | 0 <= j < |steps'|
      ensures WordFits(cond, out'[from + j - 1], out'[from + j], steps'[j])
    {
      if j < |steps| {
        assert out'[from + j - 1] == out[from + j - 1] && out'[from + j] == out[from + j];
      }
    }
  }

  /**
   `generar_palabras(cond, inicio, longitud)`: the `_`-separated words of `inicio`, extended
   one word at a time until there are `longitud`, joined with spaces. The draws are
   `rng(0)`, `rng(1)`, ...
   */
  method GenerateWords(cond: Dict<string, Dict<string, real>>, inicio: string, longitud: int, rng: nat -> real)
    returns (r: Result<string>, ghost out: seq<string>, ghost steps: seq<WordStep>)
    requires Generable(cond) && IsRandomSource(rng)
    ensures r.Err? <==> cond.keys == [] && |Split(inicio, '_')| < longitud
    ensures r.Err? ==> r.error == IndexError
    ensures r.Ok? ==> r.value == Join(out, ' ')
    ensures r.Ok? ==> |out| == (if longitud > |Split(inicio, '_')| then longitud else |Split(inicio, '_')|)
    ensures r.Ok? ==> out[..|Split(inicio, '_')|] == Split(inicio, '_') && WordStepped(cond, out, |Split(inicio, '_')|, steps)
  {
    var resultado := Split(inicio, '_');
    ghost var start := resultado;
    var t := 0;
    steps := [];
    while |resultado| < longitud
      invariant |start| <= |resultado| && (|resultado| > |start| ==> |resultado| <= longitud)
      invariant resultado[..|start|] == start
      invariant WordStepped(cond, resultado, |start|, steps)
      invariant |resultado| > |start| ==> cond.keys != []
      decreases longitud - |resultado|
    {
      var pass := WordPass(cond, resultado[|resultado| - 1], rng(t), rng(t + 1));
      if pass.Err? {
        assert resultado == start;
        return Err(IndexError), resultado, steps;
      }
      var (w, s, used) := pass.value;
      WordAdvance(cond, resultado, |start|, steps, w, s);
      resultado, steps := resultado + [w], steps + [s];
      t := t + used;
    }
    r, out := Ok(Join(resultado, ' ')), resultado;
  }

  /**
   Driven by the table of a text, every word that follows its predecessor is one the text
   has after that word, and a restart happens only after a word the text never continues.
   */
  lemma WordStepsOfText(ws: seq<string>, table: Dict<string, Dict<string, real>>, out: seq<string>, from: nat,
                        steps: seq<WordStep>, j: nat)
    requires WordTableIs(ws, table) && WordStepped(table, out, from, steps) && j < |steps|
    ensures steps[j].Follow? ==> PairCount(ws, out[from + j - 1], out[from + j], |ws|) > 0
    ensures steps[j].Restart? ==>
      && PairCount(ws, steps[j].key, out[from + j], |ws|) > 0
      && var prev := out[from + j - 1]; forall b :: PairCount(ws, prev, b, |ws|) == 0
  {
    assert WordFits(table, out[from + j - 1], out[from + j], steps[j]);
  }
}
