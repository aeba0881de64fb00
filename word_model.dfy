/**
 The word bigram model (`ModeloBigramaPalabras`): the text is split at `_` into its
 non-empty words; one pass over consecutive word pairs fills the bigram table
 ((w1, w2) -> count), the conditional table (w1 -> w2 -> count) and the context totals.
 */
module WordModel {
  import opened Dicts
  import opened Windows
  import opened Sampling
  import opened Strings
  import opened Outcomes
  import opened Ranking

  /** How often the word `a` occurs at a position below k. */
  function WordCount(ws: seq<string>, a: string, k: nat): nat
  {
    if k == 0 then 0 else WordCount(ws, a, k - 1) + (if k - 1 < |ws| && ws[k - 1] == a then 1 else 0)
  }

  /** How often the word `a` at a position below k is immediately followed by `b`. */
  function PairCount(ws: seq<string>, a: string, b: string, k: nat): nat
  {
    if k == 0 then 0 else PairCount(ws, a, b, k - 1) + (if k < |ws| && ws[k - 1] == a && ws[k] == b then 1 else 0)
  }

  // ---------------------------------------------------------------------------
  // The tables as values, after the pairs starting below k have been counted

  ghost predicate BigramOk(ws: seq<string>, k: nat, bigrams: Dict<(string, string), nat>)
  {
    Dicts.Valid(bigrams) && Total(bigrams) == k && BigramEntries(ws, k, bigrams) && BigramComplete(ws, k, bigrams)
  }

  /** Each bigram entry counts its occurrences. */
  ghost predicate BigramEntries(ws: seq<string>, k: nat, bigrams: Dict<(string, string), nat>)
  {
    forall p :: p in bigrams.m ==> bigrams.m[p] == PairCount(ws, p.0, p.1, k)
  }

  /** Every pair seen so far has a bigram entry. */
  ghost predicate BigramComplete(ws: seq<string>, k: nat, bigrams: Dict<(string, string), nat>)
  {
    forall a, b :: PairCount(ws, a, b, k) > 0 ==> (a, b) in bigrams.m
  }

  ghost predicate CondOk(ws: seq<string>, k: nat, cond: Dict<string, Dict<string, nat>>, totals: Dict<string, nat>)
  {
    && Dicts.Valid(cond) && Dicts.Valid(totals) && cond.keys == totals.keys && RowsValid(cond)
    && CondRows(ws, k, cond, totals)
    && CondComplete(ws, k, cond)
    && CondEntries(ws, k, cond)
    && CondFollowers(ws, k, cond)
  }

  ghost predicate RowsValid(cond: Dict<string, Dict<string, nat>>)
  {
    forall a :: a in cond.m ==> Dicts.Valid(cond.m[a])
  }

  /** Each word's total counts its occurrences before position k and is the sum of its row. */
  ghost predicate CondRows(ws: seq<string>, k: nat, cond: Dict<string, Dict<string, nat>>, totals: Dict<string, nat>)
  {
    && RowsValid(cond)
    && forall a :: a in cond.m ==>
         && a in totals.m
         && totals.m[a] == WordCount(ws, a, k) && totals.m[a] > 0
         && Total(cond.m[a]) == totals.m[a]
  }

  /** Every word seen before position k has a row. */
  ghost predicate CondComplete(ws: seq<string>, k: nat, cond: Dict<string, Dict<string, nat>>)
  {
    forall a :: WordCount(ws, a, k) > 0 ==> a in cond.m
  }

  ghost predicate CondEntries(ws: seq<string>, k: nat, cond: Dict<string, Dict<string, nat>>)
  {
    forall a, b :: a in cond.m && b in cond.m[a].m ==> cond.m[a].m[b] == PairCount(ws, a, b, k)
  }

  ghost predicate CondFollowers(ws: seq<string>, k: nat, cond: Dict<string, Dict<string, nat>>)
  {
    forall a, b :: a in cond.m && PairCount(ws, a, b, k) > 0 ==> b in cond.m[a].m
  }

  /** No table holds a zero count: true right after construction. */
  ghost predicate NoZeroCounts(bigrams: Dict<(string, string), nat>, cond: Dict<string, Dict<string, nat>>)
  {
    && (forall p :: p in bigrams.m ==> bigrams.m[p] > 0)
    && (forall a, b :: a in cond.m && b in cond.m[a].m ==> cond.m[a].m[b] > 0)
  }

  /** The tables are exact for the pairs starting below k and hold no zero count. */
  ghost predicate Counted(ws: seq<string>, k: nat, bigrams: Dict<(string, string), nat>,
                          cond: Dict<string, Dict<string, nat>>, totals: Dict<string, nat>)
  {
    BigramOk(ws, k, bigrams) && CondOk(ws, k, cond, totals) && NoZeroCounts(bigrams, cond)
  }

  // ---------------------------------------------------------------------------
  // One step of the counting pass

  /** The pair at position i is `a` followed by `b`. */
  ghost predicate PairAt(ws: seq<string>, i: nat, a: string, b: string)
  {
    i + 1 < |ws| && ws[i] == a && ws[i + 1] == b
  }

  /** Counting position i moves exactly the counts of `a` and of the pair (a, b). */
  lemma CountsNext(ws: seq<string>, i: nat, a: string, b: string)
    requires PairAt(ws, i, a, b)
    ensures WordCount(ws, a, i + 1) == WordCount(ws, a, i) + 1
    ensures PairCount(ws, a, b, i + 1) == PairCount(ws, a, b, i) + 1
    ensures forall d :: d != a ==> WordCount(ws, d, i + 1) == WordCount(ws, d, i)
    ensures forall d, y :: (d != a || y != b) ==> PairCount(ws, d, y, i + 1) == PairCount(ws, d, y, i)
  {
  }

  /** A pair occurs no more often than its first word. */
  lemma {:induction false} PairAtMost(ws: seq<string>, a: string, b: string, k: nat)
    ensures PairCount(ws, a, b, k) <= WordCount(ws, a, k)
  {
    if k > 0 {
      PairAtMost(ws, a, b, k - 1);
    }
  }

  /** The conditional table after `condicionales[a][b] += 1`. */
  function Bump(cond: Dict<string, Dict<string, nat>>, a: string, b: string): (r: Dict<string, Dict<string, nat>>)
    requires Dicts.Valid(cond) && RowsValid(cond)
    ensures Dicts.Valid(r) && RowsValid(r)
    ensures r.keys == if a in cond.m then cond.keys else cond.keys + [a]
    ensures a in r.m && r.m[a] == Inc(Get(cond, a, Empty()), b)
    ensures forall d :: d != a ==> (d in r.m <==> d in cond.m) && (d in cond.m ==> r.m[d] == cond.m[d])
  {
    Put(cond, a, Inc(Get(cond, a, Empty()), b))
  }

  lemma BigramStep(ws: seq<string>, i: nat, bigrams: Dict<(string, string), nat>)
    requires i + 2 <= |ws| && BigramOk(ws, i, bigrams)
    ensures BigramOk(ws, i + 1, Inc(bigrams, (ws[i], ws[i + 1])))
  {
    var a, b := ws[i], ws[i + 1];
    CountsNext(ws, i, a, b);
    TotalInc(bigrams, (a, b));
    BigramStepEntries(ws, i, bigrams, a, b);
    BigramStepComplete(ws, i, bigrams, a, b);
  }

  lemma BigramStepEntries(ws: seq<string>, i: nat, bigrams: Dict<(string, string), nat>, a: string, b: string)
    requires PairAt(ws, i, a, b) && Dicts.Valid(bigrams) && BigramEntries(ws, i, bigrams) && BigramComplete(ws, i, bigrams)
    ensures BigramEntries(ws, i + 1, Inc(bigrams, (a, b)))
  {
    var r := Inc(bigrams, (a, b));
    CountsNext(ws, i, a, b);
    forall p | p in r.m
      ensures r.m[p] == PairCount(ws, p.0, p.1, i + 1)
    {
      if p != (a, b) {
        assert p in bigrams.m && r.m[p] == bigrams.m[p];
      }
    }
  }

  lemma BigramStepComplete(ws: seq<string>, i: nat, bigrams: Dict<(string, string), nat>, a: string, b: string)
    requires PairAt(ws, i, a, b) && Dicts.Valid(bigrams) && BigramComplete(ws, i, bigrams)
    ensures BigramComplete(ws, i + 1, Inc(bigrams, (a, b)))
  {
    var r := Inc(bigrams, (a, b));
    CountsNext(ws, i, a, b);
    forall d, y | PairCount(ws, d, y, i + 1) > 0
      ensures (d, y) in r.m
    {
      if (d, y) != (a, b) {
        assert PairCount(ws, d, y, i) > 0;
      }
    }
  }

  /** The facts every part of one step of the conditional count starts from. */
  ghost predicate StepOk(ws: seq<string>, i: nat, cond: Dict<string, Dict<string, nat>>, totals: Dict<string, nat>,
                         a: string, b: string)
  {
    && PairAt(ws, i, a, b) && CondOk(ws, i, cond, totals)
    && WordCount(ws, a, i + 1) == WordCount(ws, a, i) + 1
    && PairCount(ws, a, b, i + 1) == PairCount(ws, a, b, i) + 1
    && (forall d :: d != a ==> WordCount(ws, d, i + 1) == WordCount(ws, d, i))
    && (forall d, y :: (d != a || y != b) ==> PairCount(ws, d, y, i + 1) == PairCount(ws, d, y, i))
  }

  lemma CondStep(ws: seq<string>, i: nat, cond: Dict<string, Dict<string, nat>>, totals: Dict<string, nat>)
    requires i + 2 <= |ws| && CondOk(ws, i, cond, totals)
    ensures CondOk(ws, i + 1, Bump(cond, ws[i], ws[i + 1]), Inc(totals, ws[i]))
  {
    var a, b := ws[i], ws[i + 1];
    CountsNext(ws, i, a, b);
    assert StepOk(ws, i, cond, totals, a, b);
    CondStepShape(ws, i, cond, totals, a, b);
    CondStepRows(ws, i, cond, totals, a, b);
    CondStepComplete(ws, i, cond, totals, a, b);
    CondStepEntries(ws, i, cond, totals, a, b);
    CondStepFollowers(ws, i, cond, totals, a, b);
  }

  lemma CondStepShape(ws: seq<string>, i: nat, cond: Dict<string, Dict<string, nat>>, totals: Dict<string, nat>,
                      a: string, b: string)
    requires StepOk(ws, i, cond, totals, a, b)
    ensures var cond', totals' := Bump(cond, a, b), Inc(totals, a);
      Dicts.Valid(cond') && Dicts.Valid(totals') && cond'.keys == totals'.keys && RowsValid(cond')
  {
  }

  /** What the tables record about one word and one successor, read off the invariant. */
  lemma CondLookup(ws: seq<string>, i: nat, cond: Dict<string, Dict<string, nat>>, totals: Dict<string, nat>,
                   a: string, b: string)
    requires CondOk(ws, i, cond, totals)
    ensures Get(totals, a, 0) == WordCount(ws, a, i)
    ensures Total(Get(cond, a, Empty())) == WordCount(ws, a, i)
    ensures Get(Get(cond, a, Empty()), b, 0) == PairCount(ws, a, b, i)
  {
    assert a in totals.m <==> a in cond.m;
    if a !in cond.m {
      PairAtMost(ws, a, b, i);
    }
  }

  lemma CondStepRows(ws: seq<string>, i: nat, cond: Dict<string, Dict<string, nat>>, totals: Dict<string, nat>,
                     a: string, b: string)
    requires StepOk(ws, i, cond, totals, a, b)
    ensures CondRows(ws, i + 1, Bump(cond, a, b), Inc(totals, a))
  {
    CondLookup(ws, i, cond, totals, a, b);
    StepRowsHead(ws, i, cond, totals, a, b);
    StepRowsRest(ws, i, cond, totals, a, b);
  }

  /** The row and the total of the word just counted. */
  lemma StepRowsHead(ws: seq<string>, i: nat, cond: Dict<string, Dict<string, nat>>, totals: Dict<string, nat>,
                     a: string, b: string)
    requires Dicts.Valid(cond) && RowsValid(cond) && Dicts.Valid(totals) && PairAt(ws, i, a, b)
    requires Get(totals, a, 0) == WordCount(ws, a, i) && Total(Get(cond, a, Empty())) == WordCount(ws, a, i)
    ensures var cond', totals' := Bump(cond, a, b), Inc(totals, a);
      && a in totals'.m && totals'.m[a] == WordCount(ws, a, i + 1) && totals'.m[a] > 0
      && Total(cond'.m[a]) == totals'.m[a]
  {
    StepHead(cond, totals, a, b);
    WordCountHere(ws, i, a, b);
  }

  lemma WordCountHere(ws: seq<string>, i: nat, a: string, b: string)
    requires PairAt(ws, i, a, b)
    ensures WordCount(ws, a, i + 1) == WordCount(ws, a, i) + 1
  {
  }

  /** The rows of the other words are untouched, and so are their counts. */
  lemma StepRowsRest(ws: seq<string>, i: nat, cond: Dict<string, Dict<string, nat>>, totals: Dict<string, nat>,
                     a: string, b: string)
    requires PairAt(ws, i, a, b)
    requires Dicts.Valid(cond) && Dicts.Valid(totals) && CondRows(ws, i, cond, totals)
    ensures var cond', totals' := Bump(cond, a, b), Inc(totals, a);
      forall d :: d in cond'.m && d != a ==>
        && d in totals'.m && totals'.m[d] == WordCount(ws, d, i + 1) && totals'.m[d] > 0
        && Total(cond'.m[d]) == totals'.m[d]
  {
    var cond', totals' := Bump(cond, a, b), Inc(totals, a);
    forall d | d in cond'.m && d != a
      ensures && d in totals'.m
              && totals'.m[d] == WordCount(ws, d, i + 1) && totals'.m[d] > 0
              && Total(cond'.m[d]) == totals'.m[d]
    {
      assert d in cond.m && cond'.m[d] == cond.m[d];
      assert d in totals.m && totals'.m[d] == totals.m[d];
      WordCountOther(ws, i, a, b, d);
    }
  }

  lemma WordCountOther(ws: seq<string>, i: nat, a: string, b: string, d: string)
    requires PairAt(ws, i, a, b) && d != a
    ensures WordCount(ws, d, i + 1) == WordCount(ws, d, i)
  {
  }

  /** The row, the total and the entry of the pair just counted each grow by one. */
  lemma StepHead(cond: Dict<string, Dict<string, nat>>, totals: Dict<string, nat>, a: string, b: string)
    requires Dicts.Valid(cond) && RowsValid(cond) && Dicts.Valid(totals)
    ensures var cond', totals' := Bump(cond, a, b), Inc(totals, a);
      && a in totals'.m && totals'.m[a] == Get(totals, a, 0) + 1
      && Total(cond'.m[a]) == Total(Get(cond, a, Empty())) + 1
      && b in cond'.m[a].m && cond'.m[a].m[b] == Get(Get(cond, a, Empty()), b, 0) + 1
  {
    TotalInc(Get(cond, a, Empty()), b);
  }

  lemma CondStepComplete(ws: seq<string>, i: nat, cond: Dict<string, Dict<string, nat>>, totals: Dict<string, nat>,
                         a: string, b: string)
    requires StepOk(ws, i, cond, totals, a, b)
    ensures CondComplete(ws, i + 1, Bump(cond, a, b))
  {
    forall d | WordCount(ws, d, i + 1) > 0
      ensures d in Bump(cond, a, b).m
    {
      if d != a {
        assert WordCount(ws, d, i) > 0;
      }
    }
  }

  lemma CondStepEntries(ws: seq<string>, i: nat, cond: Dict<string, Dict<string, nat>>, totals: Dict<string, nat>,
                        a: string, b: string)
    requires StepOk(ws, i, cond, totals, a, b)
    ensures CondEntries(ws, i + 1, Bump(cond, a, b))
  {
    CondLookup(ws, i, cond, totals, a, b);
    StepHead(cond, totals, a, b);
    StepEntriesRest(ws, i, cond, a, b);
  }

  /** The entries of the other pairs. */
  lemma StepEntriesRest(ws: seq<string>, i: nat, cond: Dict<string, Dict<string, nat>>, a: string, b: string)
    requires Dicts.Valid(cond) && RowsValid(cond) && CondEntries(ws, i, cond)
    requires forall d, y :: (d != a || y != b) ==> PairCount(ws, d, y, i + 1) == PairCount(ws, d, y, i)
    ensures var cond' := Bump(cond, a, b);
      forall d, y :: d in cond'.m && y in cond'.m[d].m && (d != a || y != b) ==>
        cond'.m[d].m[y] == PairCount(ws, d, y, i + 1)
  {
    var cond' := Bump(cond, a, b);
    var row := Get(cond, a, Empty());
    forall d, y | d in cond'.m && y in cond'.m[d].m && (d != a || y != b)
      ensures cond'.m[d].m[y] == PairCount(ws, d, y, i + 1)
    {
      if d != a {
        assert d in cond.m && cond'.m[d] == cond.m[d];
      } else {
        assert y in row.m && row.m[y] == cond.m[a].m[y];
      }
    }
  }

  lemma CondStepFollowers(ws: seq<string>, i: nat, cond: Dict<string, Dict<string, nat>>, totals: Dict<string, nat>,
                          a: string, b: string)
    requires StepOk(ws, i, cond, totals, a, b)
    ensures CondFollowers(ws, i + 1, Bump(cond, a, b))
  {
    var cond' := Bump(cond, a, b);
    forall d, y | d in cond'.m && PairCount(ws, d, y, i + 1) > 0
      ensures y in cond'.m[d].m
    {
      if d != a || y != b {
        assert PairCount(ws, d, y, i) > 0;
        if d == a {
          PairAtMost(ws, a, y, i);
          assert a in cond.m && cond'.m[a] == Inc(cond.m[a], b);
        } else {
          assert d in cond.m && cond'.m[d] == cond.m[d];
        }
      }
    }
  }

  lemma PositiveStep(bigrams: Dict<(string, string), nat>, cond: Dict<string, Dict<string, nat>>, a: string, b: string)
    requires Dicts.Valid(bigrams) && Dicts.Valid(cond) && RowsValid(cond) && NoZeroCounts(bigrams, cond)
    ensures NoZeroCounts(Inc(bigrams, (a, b)), Bump(cond, a, b))
  {
    IncPositive(bigrams, (a, b));
    CondPositiveStep(cond, a, b);
  }

  /** Counting a key keeps every count positive. */
  lemma IncPositive<K(!new)>(d: Dict<K, nat>, x: K)
    requires Dicts.Valid(d) && forall k :: k in d.m ==> d.m[k] > 0
    ensures forall k :: k in Inc(d, x).m ==> Inc(d, x).m[k] > 0
  {
  }

  lemma CondPositiveStep(cond: Dict<string, Dict<string, nat>>, a: string, b: string)
    requires Dicts.Valid(cond) && RowsValid(cond)
    requires forall d, y :: d in cond.m && y in cond.m[d].m ==> cond.m[d].m[y] > 0
    ensures var cond' := Bump(cond, a, b); forall d, y :: d in cond'.m && y in cond'.m[d].m ==> cond'.m[d].m[y] > 0
  {
    var cond' := Bump(cond, a, b);
    forall d, y | d in cond'.m && y in cond'.m[d].m
      ensures cond'.m[d].m[y] > 0
    {
      if d != a {
        assert cond'.m[d] == cond.m[d];
      } else {
        IncPositive(Get(cond, a, Empty()), b);
      }
    }
  }

  /** One iteration of the counting loop. */
  lemma CountPair(ws: seq<string>, i: nat, bigrams: Dict<(string, string), nat>,
                  cond: Dict<string, Dict<string, nat>>, totals: Dict<string, nat>)
    requires i + 2 <= |ws| && Counted(ws, i, bigrams, cond, totals)
    ensures Counted(ws, i + 1, Inc(bigrams, (ws[i], ws[i + 1])), Bump(cond, ws[i], ws[i + 1]), Inc(totals, ws[i]))
  {
    BigramStep(ws, i, bigrams);
    CondStep(ws, i, cond, totals);
    PositiveStep(bigrams, cond, ws[i], ws[i + 1]);
  }

  /**
   The counting pass of `_calcular_probabilidades`: each pair of consecutive words adds one
   to its bigram count, to its row entry and to its first word's total.
   */
  method CountBigrams(ws: seq<string>) returns (bigrams: Dict<(string, string), nat>,
                                               cond: Dict<string, Dict<string, nat>>, totals: Dict<string, nat>)
    ensures Counted(ws, WindowCount(|ws|, 2), bigrams, cond, totals)
  {
    bigrams, cond, totals := Empty(), Empty(), Empty();
    var i := 0;
    while i < WindowCount(|ws|, 2)
      invariant i <= WindowCount(|ws|, 2)
      invariant Counted(ws, i, bigrams, cond, totals)
    {
      var w1, w2 := ws[i], ws[i + 1];
      CountPair(ws, i, bigrams, cond, totals);
      bigrams := Inc(bigrams, (w1, w2));
      cond := Bump(cond, w1, w2);
      totals := Inc(totals, w1);
      i := i + 1;
    }
  }

  /** A word that has been counted occurs in the word list. */
  lemma {:induction false} WordCountWitness(ws: seq<string>, a: string, k: nat)
    requires WordCount(ws, a, k) > 0
    ensures a in ws
  {
    if WordCount(ws, a, k - 1) > 0 {
      WordCountWitness(ws, a, k - 1);
    } else {
      assert ws[k - 1] == a;
    }
  }

  /** Both words of a counted pair occur in the word list. */
  lemma {:induction false} PairCountWitness(ws: seq<string>, a: string, b: string, k: nat)
    requires PairCount(ws, a, b, k) > 0
    ensures a in ws && b in ws
  {
    if PairCount(ws, a, b, k - 1) > 0 {
      PairCountWitness(ws, a, b, k - 1);
    } else {
      assert ws[k - 1] == a && ws[k] == b;
    }
  }

  // ---------------------------------------------------------------------------
  // What the queries may do to the tables

  /** A `defaultdict` lookup of a bigram inserts at most a zero count, which keeps the table exact. */
  lemma BigramTouch(ws: seq<string>, k: nat, bigrams: Dict<(string, string), nat>, p: (string, string))
    requires BigramOk(ws, k, bigrams)
    ensures BigramOk(ws, k, Touch(bigrams, p, 0))
  {
    TotalTouch(bigrams, p);
    BigramTouchEntries(ws, k, bigrams, p);
    BigramTouchComplete(ws, k, bigrams, p);
  }

  lemma BigramTouchEntries(ws: seq<string>, k: nat, bigrams: Dict<(string, string), nat>, p: (string, string))
    requires Dicts.Valid(bigrams) && BigramEntries(ws, k, bigrams) && BigramComplete(ws, k, bigrams)
    ensures BigramEntries(ws, k, Touch(bigrams, p, 0))
  {
    if p !in bigrams.m {
      assert PairCount(ws, p.0, p.1, k) == 0;
    }
  }

  lemma BigramTouchComplete(ws: seq<string>, k: nat, bigrams: Dict<(string, string), nat>, p: (string, string))
    requires Dicts.Valid(bigrams) && BigramComplete(ws, k, bigrams)
    ensures BigramComplete(ws, k, Touch(bigrams, p, 0))
  {
  }

  /** The conditional table after the lookup `condicionales[a][b]` in the known row of `a`. */
  function TouchRow(cond: Dict<string, Dict<string, nat>>, a: string, b: string): (r: Dict<string, Dict<string, nat>>)
    requires Dicts.Valid(cond) && RowsValid(cond) && a in cond.m
    ensures Dicts.Valid(r) && RowsValid(r) && r.keys == cond.keys
    ensures r.m[a] == Touch(cond.m[a], b, 0)
    ensures forall d :: d in r.m && d != a ==> r.m[d] == cond.m[d]
  {
    Put(cond, a, Touch(cond.m[a], b, 0))
  }

  /** A lookup `condicionales[a][b]` in a known row inserts at most a zero count. */
  lemma CondTouch(ws: seq<string>, k: nat, cond: Dict<string, Dict<string, nat>>, totals: Dict<string, nat>,
                  a: string, b: string)
    requires CondOk(ws, k, cond, totals) && a in cond.m
    ensures CondOk(ws, k, TouchRow(cond, a, b), totals)
  {
    CondTouchRows(ws, k, cond, totals, a, b);
    CondTouchEntries(ws, k, cond, totals, a, b);
    CondTouchFollowers(ws, k, cond, a, b);
  }

  /** The lookup `condicionales[a][b] / contextos_totales[a]` in a known row reads the share of pairs (a, b). */
  lemma TouchLookup(ws: seq<string>, k: nat, cond: Dict<string, Dict<string, nat>>, totals: Dict<string, nat>,
                    a: string, b: string)
    requires CondOk(ws, k, cond, totals) && a in cond.m
    ensures CondOk(ws, k, TouchRow(cond, a, b), totals)
    ensures a in totals.m && totals.m[a] == WordCount(ws, a, k) && totals.m[a] > 0
    ensures b in TouchRow(cond, a, b).m[a].m && TouchRow(cond, a, b).m[a].m[b] == PairCount(ws, a, b, k)
  {
    CondTouch(ws, k, cond, totals, a, b);
  }

  lemma CondTouchRows(ws: seq<string>, k: nat, cond: Dict<string, Dict<string, nat>>, totals: Dict<string, nat>,
                      a: string, b: string)
    requires Dicts.Valid(cond) && a in cond.m && CondRows(ws, k, cond, totals)
    ensures CondRows(ws, k, TouchRow(cond, a, b), totals)
  {
    TotalTouch(cond.m[a], b);
  }

  lemma CondTouchEntries(ws: seq<string>, k: nat, cond: Dict<string, Dict<string, nat>>, totals: Dict<string, nat>,
                         a: string, b: string)
    requires CondOk(ws, k, cond, totals) && a in cond.m
    ensures CondEntries(ws, k, TouchRow(cond, a, b))
  {
    var r := TouchRow(cond, a, b);
    forall d, y | d in r.m && y in r.m[d].m
      ensures r.m[d].m[y] == PairCount(ws, d, y, k)
    {
      if d != a || y != b || b in cond.m[a].m {
        assert y in cond.m[d].m && r.m[d].m[y] == cond.m[d].m[y];
      }
    }
  }

  lemma CondTouchFollowers(ws: seq<string>, k: nat, cond: Dict<string, Dict<string, nat>>, a: string, b: string)
    requires Dicts.Valid(cond) && RowsValid(cond) && a in cond.m && CondFollowers(ws, k, cond)
    ensures CondFollowers(ws, k, TouchRow(cond, a, b))
  {
    var r := TouchRow(cond, a, b);
    forall d, y | d in r.m && PairCount(ws, d, y, k) > 0
      ensures y in r.m[d].m
    {
      assert y in cond.m[d].m;
    }
  }

  /** Over the pairs counted, the joint probabilities `count / total` add up to one. */
  lemma BigramSumsToOne(ws: seq<string>, k: nat, bigrams: Dict<(string, string), nat>)
    requires BigramOk(ws, k, bigrams) && k > 0
    ensures var q := Divide(bigrams, k);
      && (forall p :: p in q.m ==> q.m[p] == PairCount(ws, p.0, p.1, k) as real / k as real)
      && Sum(Values(q)) == 1.0
  {
    DivideSum(bigrams);
  }

  /** For a known word the conditional probabilities `count / word total` add up to one. */
  lemma ConditionalSumsToOne(ws: seq<string>, k: nat, cond: Dict<string, Dict<string, nat>>, totals: Dict<string, nat>,
                             a: string)
    requires CondOk(ws, k, cond, totals) && a in cond.m
    ensures var q := Divide(cond.m[a], WordCount(ws, a, k));
      && (forall b :: b in q.m ==> q.m[b] == PairCount(ws, a, b, k) as real / WordCount(ws, a, k) as real)
      && Sum(Values(q)) == 1.0
  {
    DivideSum(cond.m[a]);
  }

  /** The known words are exactly those that start a counted pair. */
  lemma KnownWord(ws: seq<string>, k: nat, cond: Dict<string, Dict<string, nat>>, totals: Dict<string, nat>, a: string)
    requires CondOk(ws, k, cond, totals)
    ensures a in totals.m <==> a in cond.m
    ensures a in cond.m <==> WordCount(ws, a, k) > 0
  {
  }

  // ---------------------------------------------------------------------------
  // Generation

  /** From position `from` on, each word follows the one before it in some counted pair. */
  ghost predicate Chained(ws: seq<string>, k: nat, out: seq<string>, from: nat)
  {
    forall j :: 0 < from <= j < |out| ==> PairCount(ws, out[j - 1], out[j], k) > 0
  }

  lemma ChainedStep(ws: seq<string>, k: nat, out: seq<string>, from: nat, b: string)
    requires Chained(ws, k, out, from) && 0 < from <= |out|
    requires PairCount(ws, out[|out| - 1], b, k) > 0
    ensures Chained(ws, k, out + [b], from)
  {
    var out' := out + [b];
    forall j | 0 < from <= j < |out'|
      ensures PairCount(ws, out'[j - 1], out'[j], k) > 0
    {
      if j < |out| {
        assert out'[j - 1] == out[j - 1] && out'[j] == out[j];
      }
    }
  }

  /** What generation needs of the tables: each known word occurs and has a valid row of positive total counting its followers. */
  ghost predicate Generative(ws: seq<string>, k: nat, cond: Dict<string, Dict<string, nat>>)
  {
    && Dicts.Valid(cond)
    && forall a :: a in cond.m ==>
         && a in ws && Dicts.Valid(cond.m[a]) && Total(cond.m[a]) > 0
         && forall b :: b in cond.m[a].m ==> cond.m[a].m[b] == PairCount(ws, a, b, k)
  }

  lemma CondGenerative(ws: seq<string>, k: nat, cond: Dict<string, Dict<string, nat>>, totals: Dict<string, nat>)
    requires CondOk(ws, k, cond, totals)
    ensures Generative(ws, k, cond)
  {
    forall a | a in cond.m
      ensures a in ws
    {
      WordCountWitness(ws, a, k);
    }
  }

  /**
   `out` is `start` followed by words of the corpus, each following the one before it in a
   counted pair; it has `length` words (or just `start` when that is longer), unless its
   last word has no row.
   */
  ghost predicate Continues(ws: seq<string>, k: nat, cond: Dict<string, Dict<string, nat>>, start: seq<string>,
                            length: nat, out: seq<string>)
  {
    && 0 < |start| <= |out| <= (if length > |start| then length else |start|) && out[..|start|] == start
    && (|out| < length ==> out[|out| - 1] !in cond.m)
    && Chained(ws, k, out, |start|)
    && (forall j :: |start| <= j < |out| ==> out[j] in ws)
  }

  /** The start words of a restart or of a usable seed, continued, are what `generar_texto` promises. */
  lemma ContinuesProduced(ws: seq<string>, k: nat, cond: Dict<string, Dict<string, nat>>, init: seq<string>,
                          start: seq<string>, length: nat, out: seq<string>)
    requires Restarts(init, cond) ==> |start| == 1 && start[0] in cond.m
    requires !Restarts(init, cond) ==> start == init
    requires Continues(ws, k, cond, start, length, out)
    ensures Produced(ws, k, cond, init, length, out)
  {
  }

  /**
   The loop of `generar_texto` (modelos_ngrams.py) after the start words are fixed:
   `length - |start|` steps (none when that is not positive), each appending a word drawn
   from the row of the last word; it stops early when the last word has no row.
   Draw t of the random source is `rng(t)`, starting at `t0`.
   */
  method GenerateWordsFrom(ghost ws: seq<string>, ghost k: nat, cond: Dict<string, Dict<string, nat>>,
                           start: seq<string>, length: nat, rng: nat -> real, t0: nat) returns (out: seq<string>)
    requires Generative(ws, k, cond) && IsRandomSource(rng) && start != []
    ensures Continues(ws, k, cond, start, length, out)
  {
    out := start;
    var current, t, i := start[|start| - 1], t0, 0;
    var steps := if length > |start| then length - |start| else 0;
    while i < steps
      invariant i <= steps && |out| == |start| + i && out[..|start|] == start
      invariant current == out[|out| - 1]
      invariant Chained(ws, k, out, |start|)
      invariant forall j :: |start| <= j < |out| ==> out[j] in ws
    {
      if current !in cond.m {
        break;
      }
      var row := cond.m[current];
      if |row.keys| == 0 {
        break;
      }
      var next := PickWeighted(row, rng(t));
      t := t + 1;
      PairCountWitness(ws, current, next, k);
      ChainedStep(ws, k, out, |start|, next);
      out := out + [next];
      current := next;
      i := i + 1;
    }
  }

  /** Start words and words of the corpus joined with `_` tokenize back into themselves. */
  lemma CleanWords(ws: seq<string>, start: seq<string>, out: seq<string>)
    requires forall i :: 0 <= i < |ws| ==> ws[i] != [] && '_' !in ws[i]
    requires forall i :: 0 <= i < |start| ==> start[i] != [] && '_' !in start[i]
    requires |start| <= |out| && out[..|start|] == start
    requires forall j :: |start| <= j < |out| ==> out[j] in ws
    ensures Tokens(Join(out, '_'), '_') == out
  {
    forall j | 0 <= j < |out|
      ensures out[j] != [] && '_' !in out[j]
    {
      if j < |start| {
        assert out[j] == start[j];
      }
    }
    TokensJoin(out, '_');
  }

  /** The seed of `generar_texto`: a `_`-joined string or a list of words. */
  datatype Seed = Text(s: string) | Words(ws: seq<string>)

  /** `palabras_semilla` */
  function SeedWords(seed: Seed): (r: seq<string>)
    ensures seed.Text? ==> forall i :: 0 <= i < |r| ==> r[i] != [] && '_' !in r[i]
  {
    match seed
    case Text(s) => Tokens(s, '_')
    case Words(ws) => ws
  }

  /** `not palabra_actual or palabra_actual not in self.condicionales`: the seed gives no usable last word. */
  predicate Restarts(init: seq<string>, cond: Dict<string, Dict<string, nat>>)
  {
    init == [] || init[|init| - 1] == [] || init[|init| - 1] !in cond.m
  }

  /**
   What `generar_texto` returns on success. When the seed gives no usable last word the
   words start again from one known word; otherwise they start with the seed's words.
   After that each word follows the one before it in a counted pair, and there are
   `length` words unless the start words were already more, or the last word has no row.
   */
  ghost predicate Produced(ws: seq<string>, k: nat, cond: Dict<string, Dict<string, nat>>, init: seq<string>,
                           length: nat, out: seq<string>)
  {
    var from := if Restarts(init, cond) then 1 else |init|;
    && (Restarts(init, cond) ==> |out| >= 1 && out[0] in cond.m)
    && (!Restarts(init, cond) ==> |init| <= |out| && out[..|init|] == init)
    && from <= |out| <= (if length > from then length else from)
    && (|out| < length ==> out[|out| - 1] !in cond.m)
    && Chained(ws, k, out, from)
  }

  /**
   `generar_texto(semilla, longitud)`. When the seed gives no known last word, generation
   restarts from one uniformly drawn known word (`rng(0)`), which is an `IndexError` when no
   word is known. Words are then appended, each drawn from the row of the word before it,
   until there are `length` words or the last word has no row. `out` is the word list
   that is joined with `_`.
   */
  method GenerateWords(ghost ws: seq<string>, ghost k: nat, cond: Dict<string, Dict<string, nat>>, seed: Seed,
                       length: nat, rng: nat -> real) returns (r: Result<string>, ghost out: seq<string>)
    requires Generative(ws, k, cond) && IsRandomSource(rng)
    requires forall i :: 0 <= i < |ws| ==> ws[i] != [] && '_' !in ws[i]
    ensures r.Err? <==> Restarts(SeedWords(seed), cond) && cond.keys == []
    ensures r.Err? ==> r.error == IndexError
    ensures r.Ok? ==> r.value == Join(out, '_') && Produced(ws, k, cond, SeedWords(seed), length, out)
    ensures r.Ok? && seed.Text? ==> Tokens(r.value, '_') == out
  {
    var init := SeedWords(seed);
    var start, t0;
    if Restarts(init, cond) {
      if |cond.keys| == 0 {
        return Err(IndexError), [];
      }
      start, t0 := [PickKey(cond, rng(0))], 1;
    } else {
      start, t0 := init, 0;
    }
    var result := GenerateWordsFrom(ws, k, cond, start, length, rng, t0);
    ContinuesProduced(ws, k, cond, init, start, length, result);
    if seed.Text? {
      CleanWords(ws, start, result);
    }
    out := result;
    r := Ok(Join(result, '_'));
  }

  // ---------------------------------------------------------------------------

  /** The fields of a `ModeloBigramaPalabras` hold the exact counts of the pairs of its words. */
  ghost predicate ModelOk(ws: seq<string>, bigrams: Dict<(string, string), nat>, cond: Dict<string, Dict<string, nat>>,
                          totals: Dict<string, nat>, total: nat)
  {
    && BigramOk(ws, WindowCount(|ws|, 2), bigrams)
    && CondOk(ws, WindowCount(|ws|, 2), cond, totals)
    && total == WindowCount(|ws|, 2)
    && forall i :: 0 <= i < |ws| ==> ws[i] != [] && '_' !in ws[i]
  }

  /** `prob_condicional` on the values of the fields: the new conditional table and the share read. */
  lemma ConditionalLookup(ws: seq<string>, bigrams: Dict<(string, string), nat>, cond: Dict<string, Dict<string, nat>>,
                          totals: Dict<string, nat>, total: nat, a: string, b: string)
    requires ModelOk(ws, bigrams, cond, totals, total) && a in totals.m && totals.m[a] > 0
    ensures a in cond.m && ModelOk(ws, bigrams, TouchRow(cond, a, b), totals, total)
    ensures TouchRow(cond, a, b).keys == cond.keys
    ensures var k := WindowCount(|ws|, 2);
      && WordCount(ws, a, k) > 0 && b in TouchRow(cond, a, b).m[a].m
      && TouchRow(cond, a, b).m[a].m[b] as real / totals.m[a] as real == PairCount(ws, a, b, k) as real / WordCount(ws, a, k) as real
  {
    var k := WindowCount(|ws|, 2);
    KnownWord(ws, k, cond, totals, a);
    TouchLookup(ws, k, cond, totals, a, b);
  }

  /** `prob_conjunta` on the values of the fields. */
  lemma JointLookup(ws: seq<string>, bigrams: Dict<(string, string), nat>, cond: Dict<string, Dict<string, nat>>,
                    totals: Dict<string, nat>, total: nat, p: (string, string))
    requires ModelOk(ws, bigrams, cond, totals, total) && total > 0
    ensures ModelOk(ws, Touch(bigrams, p, 0), cond, totals, total)
    ensures Touch(bigrams, p, 0).m[p] == PairCount(ws, p.0, p.1, total)
  {
    BigramTouch(ws, total, bigrams, p);
  }

  /** `ModeloBigramaPalabras(texto_procesado)` */
  class WordBigramModel {
    const words: seq<string>                        // palabras
    var bigrams: Dict<(string, string), nat>        // bigramas
    var cond: Dict<string, Dict<string, nat>>       // condicionales
    var contextTotals: Dict<string, nat>            // contextos_totales
    var total: nat                                  // total_bigramas

    /** `len(range(len(palabras) - 1))`: the number of consecutive word pairs. */
    function Pairs(): nat
    {
      WindowCount(|words|, 2)
    }

    ghost predicate Valid()
      reads this
    {
      ModelOk(words, bigrams, cond, contextTotals, total)
    }

    /**
     `__init__` followed by `_calcular_probabilidades`: the text is split at `_` with the
     empty pieces dropped, and each pair of consecutive words is counted once.
     */
    constructor (processed: string)
      ensures words == Tokens(processed, '_')
      ensures Valid() && NoZeroCounts(bigrams, cond)
      ensures total == if |words| >= 1 then |words| - 1 else 0
    {
      words := Tokens(processed, '_');
      new;
      var b, c, t := CountBigrams(words);
      bigrams, cond, contextTotals := b, c, t;
      total := Total(b);
    }

    /**
     `prob_conjunta(palabra1, palabra2)`: the share of pairs that are (a, b). When pairs were
     counted, `bigramas[(a, b)]` is evaluated and inserts a zero count for an unseen pair.
     */
    method JointProbability(a: string, b: string) returns (p: real)
      requires Valid()
      modifies this`bigrams
      ensures Valid()
      ensures bigrams == if total > 0 then Touch(old(bigrams), (a, b), 0) else old(bigrams)
      ensures p == if total > 0 then PairCount(words, a, b, total) as real / total as real else 0.0
    {
      if total > 0 {
        JointLookup(words, bigrams, cond, contextTotals, total, (a, b));
        bigrams := Touch(bigrams, (a, b), 0);
        assert ModelOk(words, bigrams, cond, contextTotals, total);
        p := bigrams.m[(a, b)] as real / total as real;
      } else {
        p := 0.0;
      }
    }

    /**
     `prob_condicional(palabra1, palabra2)`: for a known word `a`, the share of its pairs whose
     second word is `b`; the lookup inserts a zero count into the row of `a` for an unseen `b`.
     Unknown words give 0 and change nothing.
     */
    method ConditionalProbability(a: string, b: string) returns (p: real)
      requires Valid()
      modifies this`cond
      ensures Valid()
      ensures cond.keys == old(cond.keys)
      ensures cond == if a in contextTotals.m then TouchRow(old(cond), a, b) else old(cond)
      ensures var k := Pairs();
        p == if WordCount(words, a, k) > 0 then PairCount(words, a, b, k) as real / WordCount(words, a, k) as real else 0.0
    {
      KnownWord(words, Pairs(), cond, contextTotals, a);
      if a in contextTotals.m && contextTotals.m[a] > 0 {
        ConditionalLookup(words, bigrams, cond, contextTotals, total, a, b);
        cond := TouchRow(cond, a, b);
        assert ModelOk(words, bigrams, cond, contextTotals, total);
        p := cond.m[a].m[b] as real / contextTotals.m[a] as real;
      } else {
        p := 0.0;
      }
    }

    /**
     `generar_texto(semilla, longitud)`: `GenerateWords` over the counts of the model.
     */
    method Generate(seed: Seed, length: nat, rng: nat -> real) returns (r: Result<string>, ghost out: seq<string>)
      requires Valid() && IsRandomSource(rng)
      ensures var init := SeedWords(seed);
        r.Err? <==> Restarts(init, cond) && cond.keys == []
      ensures r.Err? ==> r.error == IndexError
      ensures r.Ok? ==> r.value == Join(out, '_') && Produced(words, Pairs(), cond, SeedWords(seed), length, out)
      ensures r.Ok? && seed.Text? ==> Tokens(r.value, '_') == out
    {
      CondGenerative(words, Pairs(), cond, contextTotals);
      r, out := GenerateWords(words, Pairs(), cond, seed, length, rng);
    }

    /** `get_top_bigramas(top_n)`: the most frequent pairs, ties in first-seen order. */
    function TopBigrams(topN: nat): (r: seq<((string, string), nat)>)
      reads this
      requires Valid()
      ensures |r| == if topN < |bigrams.keys| then topN else |bigrams.keys|
      ensures Descending(r) && DistinctKeys(r)
      ensures forall i :: 0 <= i < |r| ==> r[i].0 in bigrams.m && r[i].1 == PairCount(words, r[i].0.0, r[i].0.1, Pairs())
    {
      Top(bigrams, topN)
    }
  }
}
