/**
 `sorted(d.items(), key=lambda x: x[1], reverse=True)[:top_n]`: the entries of a count
 table by non-increasing count. Python's sort is stable and `reverse=True` keeps equal
 entries in their original order, which for a dictionary is insertion order.
 */
module Ranking {
  import opened Dicts

  /** `d.items()` in insertion order. */
  function Items<K(!new), V>(d: Dict<K, V>): (r: seq<(K, V)>)
    requires Valid(d)
    ensures |r| == |d.keys|
    ensures forall i :: 0 <= i < |r| ==> r[i].0 == d.keys[i] && r[i].0 in d.m && r[i].1 == d.m[r[i].0]
  {
    seq(|d.keys|, i requires 0 <= i < |d.keys| => (d.keys[i], d.m[d.keys[i]]))
  }

  /** Counts never increase along the sequence. */
  ghost predicate Descending<K>(s: seq<(K, nat)>)
  {
    forall i, j :: 0 <= i < j < |s| ==> s[i].1 >= s[j].1
  }

  /** No key appears twice. */
  ghost predicate DistinctKeys<K>(s: seq<(K, nat)>)
  {
    forall i, j :: 0 <= i < j < |s| ==> s[i].0 != s[j].0
  }

  /** The entries with count `v`, in their order. */
  function WithCount<K>(s: seq<(K, nat)>, v: nat): (r: seq<(K, nat)>)
    ensures |r| <= |s|
  {
    if s == [] then [] else (if s[0].1 == v then [s[0]] else []) + WithCount(s[1..], v)
  }

  /** One step of a stable insertion sort: `x` goes after every entry whose count is at least its own. */
  function Insert<K>(x: (K, nat), s: seq<(K, nat)>): (r: seq<(K, nat)>)
    ensures |r| == |s| + 1
  {
    if s == [] then [x]
    else if s[0].1 >= x.1 then [s[0]] + Insert(x, s[1..])
    else [x] + s
  }

  /** Stable sort by non-increasing count. */
  function SortByCount<K>(s: seq<(K, nat)>): (r: seq<(K, nat)>)
    ensures |r| == |s|
  {
    if s == [] then [] else Insert(s[|s| - 1], SortByCount(s[..|s| - 1]))
  }

  /** `get_top_ngramas(top_n)` / `get_top_bigramas(top_n)` on a count table. */
  function Top<K(!new)>(d: Dict<K, nat>, topN: nat): (r: seq<(K, nat)>)
    requires Valid(d)
    ensures |r| == if topN < |d.keys| then topN else |d.keys|
    ensures Descending(r) && DistinctKeys(r)
    ensures forall i :: 0 <= i < |r| ==> r[i].0 in d.m && r[i].1 == d.m[r[i].0]
  {
    var all := SortByCount(Items(d));
    SortedItems(d);
    all[..if topN < |all| then topN else |all|]
  }

  /** The sorted items are sorted, keep their keys distinct and are entries of the table. */
  lemma SortedItems<K(!new)>(d: Dict<K, nat>)
    requires Valid(d)
    ensures var all := SortByCount(Items(d));
      && Descending(all) && DistinctKeys(all)
      && forall i :: 0 <= i < |all| ==> all[i].0 in d.m && all[i].1 == d.m[all[i].0]
  {
    var all := SortByCount(Items(d));
    SortByCountSorted(Items(d));
    forall i | 0 <= i < |all| ensures all[i].0 in d.m && all[i].1 == d.m[all[i].0] {
      SortByCountFrom(Items(d), all[i]);
    }
    ItemsDistinct(d);
    SortByCountDistinct(Items(d));
  }

  /** The entries left out of the top count no more than any entry kept. */
  lemma TopDominates<K(!new)>(d: Dict<K, nat>, topN: nat, k: K)
    requires Valid(d) && k in d.m
    requires forall i :: 0 <= i < |Top(d, topN)| ==> Top(d, topN)[i].0 != k
    ensures forall i :: 0 <= i < |Top(d, topN)| ==> Top(d, topN)[i].1 >= d.m[k]
  {
    var items := Items(d);
    var p :| 0 <= p < |d.keys| && d.keys[p] == k;
    assert items[p] == (k, d.m[k]);
    SortByCountMembers(items);
    assert items[p] in multiset(SortByCount(items));
    SortByCountSorted(items);
    var all, r := SortByCount(items), Top(d, topN);
    assert r == all[..|r|];
    forall i | 0 <= i < |r| ensures all[i].0 != k {
      assert all[i] == r[i];
    }
    PrefixDominates(all, |r|, (k, d.m[k]));
  }

  lemma PrefixDominates<K>(s: seq<(K, nat)>, m: nat, y: (K, nat))
    requires Descending(s) && y in s && m <= |s|
    requires forall i :: 0 <= i < m ==> s[i].0 != y.0
    ensures forall i :: 0 <= i < m ==> s[i].1 >= y.1
  {
    var j :| 0 <= j < |s| && s[j] == y;
    assert j >= m;
  }

  /** Ties keep insertion order: the kept entries of each count are the first ones of that count in the table. */
  lemma TopKeepsOrder<K(!new)>(d: Dict<K, nat>, topN: nat, v: nat)
    requires Valid(d)
    ensures var t, w := WithCount(Top(d, topN), v), WithCount(Items(d), v); |t| <= |w| && t == w[..|t|]
  {
    var all := SortByCount(Items(d));
    var r := Top(d, topN);
    assert all == r + all[|r|..];
    WithCountAppend(r, all[|r|..], v);
    SortByCountStable(Items(d), v);
  }

  // ---------------------------------------------------------------------------

  lemma {:induction false} InsertMembers<K>(x: (K, nat), s: seq<(K, nat)>)
    ensures multiset(Insert(x, s)) == multiset(s) + multiset{x}
  {
    if s != [] && s[0].1 >= x.1 {
      InsertMembers(x, s[1..]);
      assert s == [s[0]] + s[1..];
    }
  }

  /** Inserting below a bound keeps every count below it. */
  lemma {:induction false} InsertBounded<K>(x: (K, nat), s: seq<(K, nat)>, b: nat)
    requires x.1 <= b && forall j :: 0 <= j < |s| ==> s[j].1 <= b
    ensures forall j :: 0 <= j < |Insert(x, s)| ==> Insert(x, s)[j].1 <= b
  {
    if s != [] && s[0].1 >= x.1 {
      InsertBounded(x, s[1..], b);
    }
  }

  lemma {:induction false} InsertSorted<K>(x: (K, nat), s: seq<(K, nat)>)
    requires Descending(s)
    ensures Descending(Insert(x, s))
  {
    if s != [] && s[0].1 >= x.1 {
      InsertSorted(x, s[1..]);
      InsertBounded(x, s[1..], s[0].1);
    }
  }

  /** Every entry of the sorted sequence is an entry of the original. */
  lemma SortByCountFrom<K>(s: seq<(K, nat)>, y: (K, nat))
    requires y in SortByCount(s)
    ensures y in s
  {
    SortByCountMembers(s);
    assert y in multiset(SortByCount(s));
  }

  /** The sort yields non-increasing counts. */
  lemma {:induction false} SortByCountSorted<K>(s: seq<(K, nat)>)
    ensures Descending(SortByCount(s))
  {
    if s != [] {
      SortByCountSorted(s[..|s| - 1]);
      InsertSorted(s[|s| - 1], SortByCount(s[..|s| - 1]));
    }
  }

  /** The sort is a permutation. */
  lemma {:induction false} SortByCountMembers<K>(s: seq<(K, nat)>)
    ensures multiset(SortByCount(s)) == multiset(s)
  {
    if s != [] {
      SortByCountMembers(s[..|s| - 1]);
      InsertMembers(s[|s| - 1], SortByCount(s[..|s| - 1]));
      assert s == s[..|s| - 1] + [s[|s| - 1]];
    }
  }

  lemma {:induction false} WithCountAppend<K>(a: seq<(K, nat)>, b: seq<(K, nat)>, v: nat)
    ensures WithCount(a + b, v) == WithCount(a, v) + WithCount(b, v)
  {
    if a != [] {
      assert (a + b)[1..] == a[1..] + b;
      WithCountAppend(a[1..], b, v);
    } else {
      assert a + b == b;
    }
  }

  /** Entries of a descending sequence whose count is below `v` contribute nothing to `WithCount(_, v)`. */
  lemma {:induction false} WithCountBelow<K>(s: seq<(K, nat)>, v: nat)
    requires Descending(s) && (s != [] ==> s[0].1 < v)
    ensures WithCount(s, v) == []
  {
    if s != [] {
      WithCountBelow(s[1..], v);
    }
  }

  /** Inserting `x` puts it after the entries of equal count already present. */
  lemma {:induction false} WithCountInsert<K>(x: (K, nat), s: seq<(K, nat)>, v: nat)
    requires Descending(s)
    ensures WithCount(Insert(x, s), v) == WithCount(s, v) + (if x.1 == v then [x] else [])
  {
    if s == [] {
    } else if s[0].1 >= x.1 {
      WithCountInsert(x, s[1..], v);
      assert Insert(x, s)[1..] == Insert(x, s[1..]);
    } else {
      assert Insert(x, s) == [x] + s;
      assert ([x] + s)[1..] == s;
      if x.1 == v {
        WithCountBelow(s, v);
      }
    }
  }

  /** Stability: for every count, the entries with that count keep their original order. */
  lemma {:induction false} SortByCountStable<K>(s: seq<(K, nat)>, v: nat)
    ensures WithCount(SortByCount(s), v) == WithCount(s, v)
  {
    if s != [] {
      var init, last := s[..|s| - 1], s[|s| - 1];
      SortByCountStable(init, v);
      SortByCountSorted(init);
      WithCountInsert(last, SortByCount(init), v);
      assert s == init + [last];
      WithCountAppend(init, [last], v);
    }
  }

  lemma ItemsDistinct<K(!new), V>(d: Dict<K, V>)
    requires Valid(d)
    ensures var s := Items(d); forall i, j :: 0 <= i < j < |s| ==> s[i].0 != s[j].0
  {
  }

  lemma {:induction false} InsertDistinct<K>(x: (K, nat), s: seq<(K, nat)>)
    requires DistinctKeys(s) && forall i :: 0 <= i < |s| ==> s[i].0 != x.0
    ensures DistinctKeys(Insert(x, s))
  {
    if s != [] && s[0].1 >= x.1 {
      InsertDistinct(x, s[1..]);
      var t := Insert(x, s[1..]);
      InsertMembers(x, s[1..]);
      forall j | 0 <= j < |t| ensures s[0].0 != t[j].0 {
        assert t[j] in multiset(s[1..]) + multiset{x};
        if t[j] != x {
          assert t[j] in s[1..];
        }
      }
    }
  }

  /** A sequence without repeated keys is sorted into one without repeated keys. */
  lemma {:induction false} SortByCountDistinct<K>(s: seq<(K, nat)>)
    requires forall i, j :: 0 <= i < j < |s| ==> s[i].0 != s[j].0
    ensures DistinctKeys(SortByCount(s))
  {
    if s != [] {
      var init, last := s[..|s| - 1], s[|s| - 1];
      SortByCountDistinct(init);
      SortByCountMembers(init);
      forall i | 0 <= i < |SortByCount(init)| ensures SortByCount(init)[i].0 != last.0 {
        var y := SortByCount(init)[i];
        assert y in multiset(init);
        var j :| 0 <= j < |init| && init[j] == y;
      }
      InsertDistinct(last, SortByCount(init));
    }
  }
}
