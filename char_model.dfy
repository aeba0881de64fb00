/**
 The character n-gram model (`ModeloNGramaCaracteres`): one stride-1 pass over the text
 fills the joint table (n-gram -> count), the conditional table (context -> next
 character -> count) and the context totals; queries read them and generation samples
 from them.
 */
module CharModel {
  import opened Dicts
  import opened Windows
  import opened Sampling
  import opened Strings
  import opened Outcomes
  import opened Ranking

  // ---------------------------------------------------------------------------
  // The tables as values, after the windows starting below k have been counted

  /** The joint table counts every length-n window; other keys may only hold 0. */
  ghost predicate JointOk(text: string, n: nat, k: nat, joint: Dict<string, nat>)
  {
    Dicts.Valid(joint) && Total(joint) == k && JointEntries(text, n, k, joint) && JointComplete(text, n, k, joint)
  }

  /** Each joint entry counts its windows; a key of another length holds 0. */
  ghost predicate JointEntries(text: string, n: nat, k: nat, joint: Dict<string, nat>)
  {
    forall w :: w in joint.m ==> joint.m[w] == (if |w| == n then Occurrences(text, w, k) else 0)
  }

  /** Every window seen so far has a joint entry. */
  ghost predicate JointComplete(text: string, n: nat, k: nat, joint: Dict<string, nat>)
  {
    forall w :: |w| == n && Occurrences(text, w, k) > 0 ==> w in joint.m
  }

  /**
   The conditional table has one row per context (the first n-1 characters of a window)
   seen so far; each row counts the characters that followed it, and the context
   total is both the row's sum and the number of windows starting with the context.
   */
  ghost predicate CondOk(text: string, n: nat, k: nat, cond: Dict<string, Dict<char, nat>>, totals: Dict<string, nat>)
  {
    && Dicts.Valid(cond) && Dicts.Valid(totals) && cond.keys == totals.keys && RowsValid(cond)
    && ContextLengths(n, cond)
    && CondRows(text, n, k, cond, totals)
    && CondComplete(text, n, k, cond)
    && CondEntries(text, k, cond)
    && CondFollowers(text, k, cond)
  }

  /** Every row of the conditional table is itself a valid table. */
  ghost predicate RowsValid(cond: Dict<string, Dict<char, nat>>)
  {
    forall c :: c in cond.m ==> Dicts.Valid(cond.m[c])
  }

  /** A conditional table exists only for n >= 2, and its contexts have n-1 characters. */
  ghost predicate ContextLengths(n: nat, cond: Dict<string, Dict<char, nat>>)
  {
    forall c :: c in cond.m ==> n >= 2 && |c| == n - 1
  }

  /** Each row's total counts the context's occurrences and is the sum of the row. */
  ghost predicate CondRows(text: string, n: nat, k: nat, cond: Dict<string, Dict<char, nat>>, totals: Dict<string, nat>)
  {
    && RowsValid(cond)
    && forall c :: c in cond.m ==>
         && c in totals.m
         && totals.m[c] == Occurrences(text, c, k) && totals.m[c] > 0
         && Total(cond.m[c]) == totals.m[c]
  }

  /** Every context seen so far has a row. */
  ghost predicate CondComplete(text: string, n: nat, k: nat, cond: Dict<string, Dict<char, nat>>)
  {
    forall c :: n >= 2 && |c| == n - 1 && Occurrences(text, c, k) > 0 ==> c in cond.m
  }

  /** Each row entry counts how often its character followed its context. */
  ghost predicate CondEntries(text: string, k: nat, cond: Dict<string, Dict<char, nat>>)
  {
    forall c, x :: c in cond.m && x in cond.m[c].m ==> cond.m[c].m[x] == Follows(text, c, x, k)
  }

  /** Every character seen after a context has an entry in its row. */
  ghost predicate CondFollowers(text: string, k: nat, cond: Dict<string, Dict<char, nat>>)
  {
    forall c, x :: c in cond.m && Follows(text, c, x, k) > 0 ==> x in cond.m[c].m
  }

  /** The joint table holds only length-n windows with positive counts: true right after construction. */
  ghost predicate JointPositive(n: nat, joint: Dict<string, nat>)
  {
    forall w :: w in joint.m ==> |w| == n && joint.m[w] > 0
  }

  /** No row of the conditional table holds a zero count: true right after construction. */
  ghost predicate CondPositive(cond: Dict<string, Dict<char, nat>>)
  {
    forall c, x :: c in cond.m && x in cond.m[c].m ==> cond.m[c].m[x] > 0
  }

  /** No table holds a zero count. */
  ghost predicate NoZeroCounts(n: nat, joint: Dict<string, nat>, cond: Dict<string, Dict<char, nat>>)
  {
    JointPositive(n, joint) && CondPositive(cond)
  }

  /** Counting the window at position i keeps the joint table exact. */
  lemma JointStep(text: string, n: nat, i: nat, joint: Dict<string, nat>)
    requires i + n <= |text| && JointOk(text, n, i, joint)
    ensures JointOk(text, n, i + 1, Inc(joint, text[i..i + n]))
  {
    var g := text[i..i + n];
    TotalInc(joint, g);
    JointStepEntries(text, n, i, joint);
    JointStepComplete(text, n, i, joint);
  }

  lemma JointStepPositive(n: nat, joint: Dict<string, nat>, g: string)
    requires Dicts.Valid(joint) && |g| == n && JointPositive(n, joint)
    ensures JointPositive(n, Inc(joint, g))
  {
  }

  lemma JointStepEntries(text: string, n: nat, i: nat, joint: Dict<string, nat>)
    requires i + n <= |text| && JointOk(text, n, i, joint)
    ensures JointEntries(text, n, i + 1, Inc(joint, text[i..i + n]))
  {
    var g := text[i..i + n];
    var r := Inc(joint, g);
    forall w | w in r.m
      ensures r.m[w] == (if |w| == n then Occurrences(text, w, i + 1) else 0)
    {
      JointEntryNext(text, n, i, joint, w);
    }
  }

  /** One entry after the window at i was counted. */
  lemma JointEntryNext(text: string, n: nat, i: nat, joint: Dict<string, nat>, w: string)
    requires i + n <= |text| && Dicts.Valid(joint) && JointEntries(text, n, i, joint) && JointComplete(text, n, i, joint)
    requires w in Inc(joint, text[i..i + n]).m
    ensures Inc(joint, text[i..i + n]).m[w] == (if |w| == n then Occurrences(text, w, i + 1) else 0)
  {
    if w == text[i..i + n] {
      JointEntryHit(text, n, i, joint);
    } else {
      JointEntryMiss(text, n, i, joint, w);
    }
  }

  /** The entry of the window at i counts one more occurrence. */
  lemma JointEntryHit(text: string, n: nat, i: nat, joint: Dict<string, nat>)
    requires i + n <= |text| && Dicts.Valid(joint) && JointEntries(text, n, i, joint) && JointComplete(text, n, i, joint)
    ensures Inc(joint, text[i..i + n]).m[text[i..i + n]] == Occurrences(text, text[i..i + n], i + 1)
  {
    var g := text[i..i + n];
    OccurrencesHit(text, g, i);
    assert Get(joint, g, 0) == Occurrences(text, g, i);
  }

  /** The entry of any other key keeps its count, which the window at i does not change. */
  lemma JointEntryMiss(text: string, n: nat, i: nat, joint: Dict<string, nat>, w: string)
    requires i + n <= |text| && Dicts.Valid(joint) && JointEntries(text, n, i, joint)
    requires w in Inc(joint, text[i..i + n]).m && w != text[i..i + n]
    ensures Inc(joint, text[i..i + n]).m[w] == (if |w| == n then Occurrences(text, w, i + 1) else 0)
  {
    assert w in joint.m && Inc(joint, text[i..i + n]).m[w] == joint.m[w];
    if |w| == n {
      OccurrencesNext(text, w, i);
    }
  }

  lemma JointStepComplete(text: string, n: nat, i: nat, joint: Dict<string, nat>)
    requires i + n <= |text| && JointOk(text, n, i, joint)
    ensures JointComplete(text, n, i + 1, Inc(joint, text[i..i + n]))
  {
    var g := text[i..i + n];
    forall w | |w| == n && Occurrences(text, w, i + 1) > 0
      ensures w in Inc(joint, g).m
    {
      if w != g {
        OccurrencesNext(text, w, i);
        assert Occurrences(text, w, i) > 0;
        assert w in joint.m;
      }
    }
  }

  /** The conditional table after `condicionales[c][x] += 1` on a defaultdict of Counters. */
  function Bump(cond: Dict<string, Dict<char, nat>>, c: string, x: char): (r: Dict<string, Dict<char, nat>>)
    requires Dicts.Valid(cond) && RowsValid(cond)
    ensures Dicts.Valid(r) && RowsValid(r)
    ensures r.keys == if c in cond.m then cond.keys else cond.keys + [c]
    ensures c in r.m && r.m[c] == Inc(Get(cond, c, Empty()), x)
    ensures forall d :: d != c ==> (d in r.m <==> d in cond.m) && (d in cond.m ==> r.m[d] == cond.m[d])
  {
    Put(cond, c, Inc(Get(cond, c, Empty()), x))
  }

  /** The window at position i is the context `c` followed by the character `x`. */
  ghost predicate WindowAt(text: string, i: nat, c: string, x: char)
  {
    i + |c| + 1 <= |text| && text[i..i + |c| + 1] == c + [x] && c == text[i..i + |c|]
  }

  lemma WindowAtOf(text: string, i: nat, n: nat)
    requires 1 <= n && i + n <= |text|
    ensures WindowAt(text, i, text[i..i + n - 1], text[i + n - 1])
  {
    var c := text[i..i + n - 1];
    assert |c| + 1 == n;
    WindowSplit(text, i, n);
  }

  /** The facts every part of one step of the conditional count starts from. */
  ghost predicate StepOk(text: string, n: nat, i: nat, cond: Dict<string, Dict<char, nat>>, totals: Dict<string, nat>,
                         c: string, x: char)
  {
    n >= 2 && |c| == n - 1 && WindowAt(text, i, c, x) && CondOk(text, n, i, cond, totals)
  }

  /** Counting the context and next character of the window at position i keeps both tables exact. */
  lemma CondStep(text: string, n: nat, i: nat, cond: Dict<string, Dict<char, nat>>, totals: Dict<string, nat>)
    requires n >= 2 && i + n <= |text| && CondOk(text, n, i, cond, totals)
    ensures CondOk(text, n, i + 1, Bump(cond, text[i..i + n - 1], text[i + n - 1]), Inc(totals, text[i..i + n - 1]))
  {
    var c, x := text[i..i + n - 1], text[i + n - 1];
    WindowAtOf(text, i, n);
    assert StepOk(text, n, i, cond, totals, c, x);
    CondStepKeys(text, n, i, cond, totals, c, x);
    CondStepRows(text, n, i, cond, totals, c, x);
    CondStepComplete(text, n, i, cond, totals, c, x);
    CondStepEntries(text, n, i, cond, totals, c, x);
    CondStepFollowers(text, n, i, cond, totals, c, x);
  }

  lemma CondStepKeys(text: string, n: nat, i: nat, cond: Dict<string, Dict<char, nat>>, totals: Dict<string, nat>,
                     c: string, x: char)
    requires StepOk(text, n, i, cond, totals, c, x)
    ensures var cond', totals' := Bump(cond, c, x), Inc(totals, c);
      && Dicts.Valid(cond') && Dicts.Valid(totals') && cond'.keys == totals'.keys && RowsValid(cond')
      && ContextLengths(n, cond')
  {
  }

  lemma CondStepRows(text: string, n: nat, i: nat, cond: Dict<string, Dict<char, nat>>, totals: Dict<string, nat>,
                     c: string, x: char)
    requires StepOk(text, n, i, cond, totals, c, x)
    ensures CondRows(text, n, i + 1, Bump(cond, c, x), Inc(totals, c))
  {
    CondLookup(text, n, i, cond, totals, c, x);
    CondStepHead(text, i, cond, totals, c, x);
    CondStepRowsRest(text, n, i, cond, totals, c, x);
  }

  lemma CondStepEntries(text: string, n: nat, i: nat, cond: Dict<string, Dict<char, nat>>, totals: Dict<string, nat>,
                        c: string, x: char)
    requires StepOk(text, n, i, cond, totals, c, x)
    ensures CondEntries(text, i + 1, Bump(cond, c, x))
  {
    CondLookup(text, n, i, cond, totals, c, x);
    CondStepHead(text, i, cond, totals, c, x);
    CondStepEntriesRest(text, n, i, cond, c, x);
  }

  /** What the tables record about one context and one character, read off the invariant. */
  lemma CondLookup(text: string, n: nat, i: nat, cond: Dict<string, Dict<char, nat>>, totals: Dict<string, nat>,
                   c: string, x: char)
    requires n >= 2 && |c| == n - 1 && CondOk(text, n, i, cond, totals)
    ensures Get(totals, c, 0) == Occurrences(text, c, i)
    ensures Total(Get(cond, c, Empty())) == Occurrences(text, c, i)
    ensures Get(Get(cond, c, Empty()), x, 0) == Follows(text, c, x, i)
  {
    if c in cond.m {
      LookupSeen(text, n, i, cond, totals, c, x);
    } else {
      LookupUnseen(text, n, i, cond, totals, c, x);
    }
  }

  /** A context with a row: its total, its row's total and its entry are the counts. */
  lemma LookupSeen(text: string, n: nat, i: nat, cond: Dict<string, Dict<char, nat>>, totals: Dict<string, nat>,
                   c: string, x: char)
    requires Dicts.Valid(cond) && Dicts.Valid(totals) && RowsValid(cond) && c in cond.m
    requires CondRows(text, n, i, cond, totals) && CondEntries(text, i, cond) && CondFollowers(text, i, cond)
    ensures Get(totals, c, 0) == Occurrences(text, c, i)
    ensures Total(Get(cond, c, Empty())) == Occurrences(text, c, i)
    ensures Get(Get(cond, c, Empty()), x, 0) == Follows(text, c, x, i)
  {
    assert Get(cond, c, Empty()) == cond.m[c];
    if x !in cond.m[c].m {
      assert Follows(text, c, x, i) == 0;
    }
  }

  /** A context without a row has not occurred, nor has any window it starts. */
  lemma LookupUnseen(text: string, n: nat, i: nat, cond: Dict<string, Dict<char, nat>>, totals: Dict<string, nat>,
                     c: string, x: char)
    requires Dicts.Valid(cond) && Dicts.Valid(totals) && cond.keys == totals.keys && c !in cond.m
    requires n >= 2 && |c| == n - 1 && CondComplete(text, n, i, cond)
    ensures Get(totals, c, 0) == Occurrences(text, c, i)
    ensures Total(Get(cond, c, Empty())) == Occurrences(text, c, i)
    ensures Get(Get(cond, c, Empty()), x, 0) == Follows(text, c, x, i)
  {
    assert c !in totals.m;
    assert Occurrences(text, c, i) == 0;
    FollowsAtMost(text, c, x, i);
  }

  /** The row and the entry of the window just counted. */
  lemma CondStepHead(text: string, i: nat, cond: Dict<string, Dict<char, nat>>, totals: Dict<string, nat>,
                     c: string, x: char)
    requires Dicts.Valid(cond) && RowsValid(cond) && Dicts.Valid(totals)
    requires WindowAt(text, i, c, x)
    requires Get(totals, c, 0) == Occurrences(text, c, i)
    requires Total(Get(cond, c, Empty())) == Occurrences(text, c, i)
    requires Get(Get(cond, c, Empty()), x, 0) == Follows(text, c, x, i)
    ensures var cond', totals' := Bump(cond, c, x), Inc(totals, c);
      && c in totals'.m && totals'.m[c] == Occurrences(text, c, i + 1) && Total(cond'.m[c]) == totals'.m[c]
      && x in cond'.m[c].m && cond'.m[c].m[x] == Follows(text, c, x, i + 1)
  {
    var row, t := Get(cond, c, Empty()), Get(totals, c, 0);
    var cond', totals' := Bump(cond, c, x), Inc(totals, c);
    assert cond'.m[c] == Inc(row, x);
    assert totals'.m[c] == t + 1;
    HeadTotal(text, i, row, t, c, x);
    HeadEntry(text, i, row, c, x);
  }

  /** The new row of the context counts one more occurrence, as its total does. */
  lemma HeadTotal(text: string, i: nat, row: Dict<char, nat>, t: nat, c: string, x: char)
    requires Dicts.Valid(row) && WindowAt(text, i, c, x)
    requires t == Occurrences(text, c, i) && Total(row) == t
    ensures Total(Inc(row, x)) == t + 1 == Occurrences(text, c, i + 1)
  {
    TotalInc(row, x);
    OccurrencesHit(text, c, i);
  }

  /** The entry of the character counts one more occurrence of the window. */
  lemma HeadEntry(text: string, i: nat, row: Dict<char, nat>, c: string, x: char)
    requires Dicts.Valid(row) && WindowAt(text, i, c, x)
    requires Get(row, x, 0) == Follows(text, c, x, i)
    ensures Inc(row, x).m[x] == Follows(text, c, x, i + 1)
  {
    OccurrencesHit(text, c + [x], i);
  }

  /** The rows of the other contexts. */
  lemma CondStepRowsRest(text: string, n: nat, i: nat, cond: Dict<string, Dict<char, nat>>, totals: Dict<string, nat>,
                         c: string, x: char)
    requires n >= 2 && |c| == n - 1 && WindowAt(text, i, c, x)
    requires Dicts.Valid(cond) && Dicts.Valid(totals) && ContextLengths(n, cond)
    requires CondRows(text, n, i, cond, totals)
    ensures var cond', totals' := Bump(cond, c, x), Inc(totals, c);
      forall d :: d in cond'.m && d != c ==>
        && d in totals'.m && totals'.m[d] == Occurrences(text, d, i + 1) && totals'.m[d] > 0
        && Total(cond'.m[d]) == totals'.m[d]
  {
    var cond', totals' := Bump(cond, c, x), Inc(totals, c);
    forall d | d in cond'.m && d != c
      ensures && d in totals'.m
              && totals'.m[d] == Occurrences(text, d, i + 1) && totals'.m[d] > 0
              && Total(cond'.m[d]) == totals'.m[d]
    {
      assert d in cond.m && cond'.m[d] == cond.m[d];
      assert d in totals.m && totals'.m[d] == totals.m[d];
      assert |d| == |c| && text[i..i + |c|] == c;
      OccurrencesOther(text, d, i, c);
    }
  }

  lemma CondStepComplete(text: string, n: nat, i: nat, cond: Dict<string, Dict<char, nat>>, totals: Dict<string, nat>, c: string, x: char)
    requires StepOk(text, n, i, cond, totals, c, x)
    ensures CondComplete(text, n, i + 1, Bump(cond, c, x))
  {
    forall d | |d| == n - 1 && Occurrences(text, d, i + 1) > 0
      ensures d in Bump(cond, c, x).m
    {
      if d != c {
        OccurrencesOther(text, d, i, c);
      }
    }
  }

  /** The entries of the other (context, character) pairs. */
  lemma CondStepEntriesRest(text: string, n: nat, i: nat, cond: Dict<string, Dict<char, nat>>, c: string, x: char)
    requires n >= 2 && |c| == n - 1 && WindowAt(text, i, c, x)
    requires Dicts.Valid(cond) && RowsValid(cond) && ContextLengths(n, cond) && CondEntries(text, i, cond)
    ensures var cond' := Bump(cond, c, x);
      forall d, y :: d in cond'.m && y in cond'.m[d].m && (d != c || y != x) ==> cond'.m[d].m[y] == Follows(text, d, y, i + 1)
  {
    var cond' := Bump(cond, c, x);
    var row := Get(cond, c, Empty());
    forall d, y | d in cond'.m && y in cond'.m[d].m && (d != c || y != x)
      ensures cond'.m[d].m[y] == Follows(text, d, y, i + 1)
    {
      assert |d| == n - 1;
      FollowsOther(text, d, y, i, c, x);
      if d != c {
        assert d in cond.m && cond'.m[d] == cond.m[d];
      } else {
        assert y in row.m && row.m[y] == cond.m[c].m[y];
      }
    }
  }

  lemma CondStepFollowers(text: string, n: nat, i: nat, cond: Dict<string, Dict<char, nat>>, totals: Dict<string, nat>, c: string, x: char)
    requires StepOk(text, n, i, cond, totals, c, x)
    ensures CondFollowers(text, i + 1, Bump(cond, c, x))
  {
    var cond' := Bump(cond, c, x);
    var row := Get(cond, c, Empty());
    forall d, y | d in cond'.m && Follows(text, d, y, i + 1) > 0
      ensures y in cond'.m[d].m
    {
      if d != c || y != x {
        assert |d| == n - 1;
        FollowsOther(text, d, y, i, c, x);
        assert Follows(text, d, y, i) > 0;
        if d == c {
          FollowsAtMost(text, c, y, i);
          assert c in cond.m && cond'.m[c] == Inc(cond.m[c], x);
        } else {
          assert d in cond.m && cond'.m[d] == cond.m[d];
        }
      }
    }
  }

  lemma CondStepPositive(cond: Dict<string, Dict<char, nat>>, c: string, x: char)
    requires Dicts.Valid(cond) && RowsValid(cond) && CondPositive(cond)
    ensures CondPositive(Bump(cond, c, x))
  {
    var cond' := Bump(cond, c, x);
    forall d, y | d in cond'.m && y in cond'.m[d].m
      ensures cond'.m[d].m[y] > 0
    {
      if d != c {
        assert cond'.m[d] == cond.m[d];
      }
    }
  }

  /** For n <= 1 the conditional tables stay empty. */
  lemma CondStepUnigram(text: string, n: nat, i: nat, cond: Dict<string, Dict<char, nat>>, totals: Dict<string, nat>)
    requires n <= 1 && CondOk(text, n, i, cond, totals)
    ensures CondOk(text, n, i + 1, cond, totals)
  {
  }

  /** The three tables are exact for the windows starting below k and hold no zero count. */
  ghost predicate Counted(text: string, n: nat, k: nat, joint: Dict<string, nat>,
                          cond: Dict<string, Dict<char, nat>>, totals: Dict<string, nat>)
  {
    JointOk(text, n, k, joint) && CondOk(text, n, k, cond, totals) && NoZeroCounts(n, joint, cond)
  }

  /** One iteration of the counting loop for n >= 2. */
  lemma CountWindow(text: string, n: nat, i: nat, joint: Dict<string, nat>,
                    cond: Dict<string, Dict<char, nat>>, totals: Dict<string, nat>)
    requires n >= 2 && i + n <= |text| && Counted(text, n, i, joint, cond, totals)
    ensures Counted(text, n, i + 1, Inc(joint, text[i..i + n]), Bump(cond, text[i..i + n - 1], text[i + n - 1]),
                    Inc(totals, text[i..i + n - 1]))
  {
    JointStep(text, n, i, joint);
    JointStepPositive(n, joint, text[i..i + n]);
    CondStep(text, n, i, cond, totals);
    CondStepPositive(cond, text[i..i + n - 1], text[i + n - 1]);
  }

  /** One iteration of the counting loop for n <= 1, where only the joint table changes. */
  lemma CountUnigram(text: string, n: nat, i: nat, joint: Dict<string, nat>,
                     cond: Dict<string, Dict<char, nat>>, totals: Dict<string, nat>)
    requires n <= 1 && i + n <= |text| && Counted(text, n, i, joint, cond, totals)
    ensures Counted(text, n, i + 1, Inc(joint, text[i..i + n]), cond, totals)
  {
    JointStep(text, n, i, joint);
    JointStepPositive(n, joint, text[i..i + n]);
    CondStepUnigram(text, n, i, cond, totals);
  }

  /**
   The counting pass of `_calcular_probabilidades`: every window `text[i..i + n]` adds one
   to its joint count and, for n > 1, one to its context's row entry for the last
   character and one to its context's total.
   */
  method CountNGrams(text: string, n: nat) returns (joint: Dict<string, nat>, cond: Dict<string, Dict<char, nat>>,
                                                     totals: Dict<string, nat>)
    ensures Counted(text, n, WindowCount(|text|, n), joint, cond, totals)
  {
    joint, cond, totals := Empty(), Empty(), Empty();
    var i := 0;
    while i < WindowCount(|text|, n)
      invariant i <= WindowCount(|text|, n)
      invariant Counted(text, n, i, joint, cond, totals)
    {
      var ngram := text[i..i + n];
      if n > 1 {
        var context, next := text[i..i + n - 1], text[i + n - 1];
        CountWindow(text, n, i, joint, cond, totals);
        cond := Bump(cond, context, next);
        totals := Inc(totals, context);
      } else {
        CountUnigram(text, n, i, joint, cond, totals);
      }
      joint := Inc(joint, ngram);
      i := i + 1;
    }
  }

  // ---------------------------------------------------------------------------
  // What the queries may do to the tables

  /** A `defaultdict` lookup of a joint key inserts at most a zero count, which keeps the table exact. */
  lemma JointTouch(text: string, n: nat, k: nat, joint: Dict<string, nat>, w: string)
    requires JointOk(text, n, k, joint)
    ensures JointOk(text, n, k, Touch(joint, w, 0))
  {
    TotalTouch(joint, w);
    JointTouchEntries(text, n, k, joint, w);
    JointTouchComplete(text, n, k, joint, w);
  }

  lemma JointTouchEntries(text: string, n: nat, k: nat, joint: Dict<string, nat>, w: string)
    requires Dicts.Valid(joint) && JointEntries(text, n, k, joint) && JointComplete(text, n, k, joint)
    ensures JointEntries(text, n, k, Touch(joint, w, 0))
  {
    if w !in joint.m {
      assert !(|w| == n && Occurrences(text, w, k) > 0);
    }
  }

  lemma JointTouchComplete(text: string, n: nat, k: nat, joint: Dict<string, nat>, w: string)
    requires JointOk(text, n, k, joint)
    ensures JointComplete(text, n, k, Touch(joint, w, 0))
  {
  }

  /** The facts every part of a query's lookup `condicionales[c][x]` starts from. */
  ghost predicate TouchOk(text: string, n: nat, k: nat, cond: Dict<string, Dict<char, nat>>, totals: Dict<string, nat>,
                          c: string)
  {
    CondOk(text, n, k, cond, totals) && c in cond.m
  }

  /** The conditional table after the lookup `condicionales[c][x]` in the known row of `c`. */
  function TouchRow(cond: Dict<string, Dict<char, nat>>, c: string, x: char): (r: Dict<string, Dict<char, nat>>)
    requires Dicts.Valid(cond) && RowsValid(cond) && c in cond.m
    ensures Dicts.Valid(r) && RowsValid(r) && r.keys == cond.keys
    ensures r.m[c] == Touch(cond.m[c], x, 0)
    ensures forall d :: d in r.m && d != c ==> r.m[d] == cond.m[d]
  {
    Put(cond, c, Touch(cond.m[c], x, 0))
  }

  /** A lookup `condicionales[c][x]` in a known row inserts at most a zero count. */
  lemma CondTouch(text: string, n: nat, k: nat, cond: Dict<string, Dict<char, nat>>, totals: Dict<string, nat>,
                  c: string, x: char)
    requires CondOk(text, n, k, cond, totals) && c in cond.m
    ensures CondOk(text, n, k, TouchRow(cond, c, x), totals)
  {
    assert TouchOk(text, n, k, cond, totals, c);
    CondTouchShape(text, n, k, cond, totals, c, x);
    CondTouchRows(text, n, k, cond, totals, c, x);
    CondTouchEntries(text, n, k, cond, totals, c, x);
    CondTouchFollowers(text, n, k, cond, c, x);
  }

  lemma CondTouchShape(text: string, n: nat, k: nat, cond: Dict<string, Dict<char, nat>>, totals: Dict<string, nat>,
                       c: string, x: char)
    requires TouchOk(text, n, k, cond, totals, c)
    ensures var r := TouchRow(cond, c, x);
      && Dicts.Valid(r) && r.keys == totals.keys && RowsValid(r) && ContextLengths(n, r)
      && CondComplete(text, n, k, r)
  {
  }

  lemma CondTouchRows(text: string, n: nat, k: nat, cond: Dict<string, Dict<char, nat>>, totals: Dict<string, nat>,
                      c: string, x: char)
    requires Dicts.Valid(cond) && c in cond.m && CondRows(text, n, k, cond, totals)
    ensures CondRows(text, n, k, TouchRow(cond, c, x), totals)
  {
    TotalTouch(cond.m[c], x);
  }

  lemma CondTouchEntries(text: string, n: nat, k: nat, cond: Dict<string, Dict<char, nat>>, totals: Dict<string, nat>,
                         c: string, x: char)
    requires TouchOk(text, n, k, cond, totals, c)
    ensures CondEntries(text, k, TouchRow(cond, c, x))
  {
    var r := TouchRow(cond, c, x);
    forall d, y | d in r.m && y in r.m[d].m
      ensures r.m[d].m[y] == Follows(text, d, y, k)
    {
      if d != c || y != x || x in cond.m[c].m {
        assert y in cond.m[d].m && r.m[d].m[y] == cond.m[d].m[y];
      }
    }
  }

  lemma CondTouchFollowers(text: string, n: nat, k: nat, cond: Dict<string, Dict<char, nat>>, c: string, x: char)
    requires Dicts.Valid(cond) && RowsValid(cond) && c in cond.m && CondFollowers(text, k, cond)
    ensures CondFollowers(text, k, TouchRow(cond, c, x))
  {
    var r := TouchRow(cond, c, x);
    forall d, y | d in r.m && Follows(text, d, y, k) > 0
      ensures y in r.m[d].m
    {
      assert y in cond.m[d].m;
    }
  }

  /** Over the windows counted, the joint probabilities `count / total` add up to one. */
  lemma JointSumsToOne(text: string, n: nat, k: nat, joint: Dict<string, nat>)
    requires JointOk(text, n, k, joint) && k > 0
    ensures var q := Divide(joint, k);
      && (forall w :: w in q.m ==> q.m[w] == (if |w| == n then Occurrences(text, w, k) else 0) as real / k as real)
      && Sum(Values(q)) == 1.0
  {
    DivideSum(joint);
  }

  /** Over a known context the conditional probabilities `count / context total` add up to one. */
  lemma ConditionalSumsToOne(text: string, n: nat, k: nat, cond: Dict<string, Dict<char, nat>>, totals: Dict<string, nat>,
                             c: string)
    requires CondOk(text, n, k, cond, totals) && c in cond.m
    ensures var q := Divide(cond.m[c], Occurrences(text, c, k));
      && (forall x :: x in q.m ==> q.m[x] == Follows(text, c, x, k) as real / Occurrences(text, c, k) as real)
      && Sum(Values(q)) == 1.0
  {
    DivideSum(cond.m[c]);
  }

  /** The known contexts are exactly the (n-1)-character strings that start a window. */
  lemma KnownContext(text: string, n: nat, k: nat, cond: Dict<string, Dict<char, nat>>, totals: Dict<string, nat>,
                     c: string)
    requires CondOk(text, n, k, cond, totals)
    ensures c in totals.m <==> c in cond.m
    ensures c in cond.m <==> n >= 2 && |c| == n - 1 && Occurrences(text, c, k) > 0
  {
  }

  // ---------------------------------------------------------------------------
  // Generation

  /**
   The character at position p of `out` was drawn with positive weight from the row of
   the context `c`, and `c` is the text's own context `out[..p][-(n-1):]` whenever that
   context has a row.
   */
  ghost predicate DrawnAt(text: string, n: nat, k: nat, cond: Dict<string, Dict<char, nat>>, out: string, p: nat, c: string)
    requires p < |out|
  {
    && c in cond.m && Follows(text, c, out[p], k) > 0
    && (SliceFrom(out[..p], -(n - 1)) in cond.m ==> c == SliceFrom(out[..p], -(n - 1)))
  }

  lemma DrawnAtExtend(text: string, n: nat, k: nat, cond: Dict<string, Dict<char, nat>>, out: string, p: nat, c: string,
                      x: char)
    requires p < |out| && DrawnAt(text, n, k, cond, out, p, c)
    ensures DrawnAt(text, n, k, cond, out + [x], p, c)
  {
    assert (out + [x])[..p] == out[..p];
  }

  /** Every character drawn after the seed satisfies `DrawnAt`. */
  ghost predicate DrawnAll(text: string, n: nat, k: nat, cond: Dict<string, Dict<char, nat>>, out: string, start: nat,
                           contexts: seq<string>)
  {
    start + |contexts| <= |out| &&
    forall j :: 0 <= j < |contexts| ==> DrawnAt(text, n, k, cond, out, start + j, contexts[j])
  }

  lemma DrawnAllExtend(text: string, n: nat, k: nat, cond: Dict<string, Dict<char, nat>>, out: string, start: nat,
                       contexts: seq<string>, x: char)
    requires DrawnAll(text, n, k, cond, out, start, contexts)
    ensures DrawnAll(text, n, k, cond, out + [x], start, contexts)
  {
    forall j | 0 <= j < |contexts|
      ensures DrawnAt(text, n, k, cond, out + [x], start + j, contexts[j])
    {
      DrawnAtExtend(text, n, k, cond, out, start + j, contexts[j], x);
    }
  }

  /** Drawing `x` from the row of `c` after `out` extends the record by one step. */
  lemma DrawnAllStep(text: string, n: nat, k: nat, cond: Dict<string, Dict<char, nat>>, out: string, start: nat,
                     contexts: seq<string>, c: string, x: char)
    requires DrawnAll(text, n, k, cond, out, start, contexts) && start + |contexts| == |out|
    requires c in cond.m && Follows(text, c, x, k) > 0
    requires SliceFrom(out, -(n - 1)) in cond.m ==> c == SliceFrom(out, -(n - 1))
    ensures DrawnAll(text, n, k, cond, out + [x], start, contexts + [c])
  {
    DrawnAllExtend(text, n, k, cond, out, start, contexts, x);
    assert (out + [x])[..|out|] == out;
  }

  /** What generation needs of the tables: each known context has a valid row of positive total counting its followers. */
  ghost predicate Generative(text: string, k: nat, cond: Dict<string, Dict<char, nat>>)
  {
    && Dicts.Valid(cond)
    && forall c :: c in cond.m ==>
         && Dicts.Valid(cond.m[c]) && Total(cond.m[c]) > 0
         && forall x :: x in cond.m[c].m ==> cond.m[c].m[x] == Follows(text, c, x, k)
  }

  lemma CondGenerative(text: string, n: nat, k: nat, cond: Dict<string, Dict<char, nat>>, totals: Dict<string, nat>)
    requires CondOk(text, n, k, cond, totals)
    ensures Generative(text, k, cond)
  {
  }

  /**
   The loop of `generar_texto` (modelos_ngrams.py) after the seed check: `length` steps, each drawing
   the next character from the row of the current context `out[-(n-1):]`, or of a uniformly
   drawn known context when that one has no row; with no known context at all it stops.
   */
  method GenerateFrom(ghost text: string, n: nat, ghost k: nat, cond: Dict<string, Dict<char, nat>>, seed: string,
                      length: nat, rng: nat -> real) returns (out: string, ghost contexts: seq<string>)
    requires Generative(text, k, cond) && IsRandomSource(rng) && |seed| == n - 1
    ensures |seed| <= |out| <= |seed| + length && out[..|seed|] == seed
    ensures cond.keys != [] ==> |out| == |seed| + length
    ensures cond.keys == [] ==> out == seed
    ensures |contexts| == |out| - |seed| && DrawnAll(text, n, k, cond, out, |seed|, contexts)
  {
    contexts := [];
    out := seed;
    var ctx, t, i := seed, 0, 0;
    FullSlice(seed);
    while i < length
      invariant Generating(text, n, k, cond, seed, length, out, contexts, i)
      invariant ctx == SliceFrom(out, -(n - 1))
    {
      if ctx !in cond.m {
        if |cond.keys| > 0 {
          ctx := PickKey(cond, rng(t));
          t := t + 1;
        } else {
          break;
        }
      }
      var row := cond.m[ctx];
      if |row.keys| == 0 {
        break;
      }
      var x := PickWeighted(row, rng(t));
      t := t + 1;
      GenerateStep(text, n, k, cond, seed, length, out, contexts, i, ctx, x);
      contexts := contexts + [ctx];
      out := out + [x];
      ctx := SliceFrom(out, -(n - 1));
      i := i + 1;
    }
  }

  /** The invariant of the loop of `GenerateFrom` after i steps. */
  ghost predicate Generating(text: string, n: nat, k: nat, cond: Dict<string, Dict<char, nat>>, seed: string, length: nat,
                             out: string, contexts: seq<string>, i: nat)
  {
    && i <= length && |out| == |seed| + i && out[..|seed|] == seed
    && |contexts| == i && DrawnAll(text, n, k, cond, out, |seed|, contexts)
    && (cond.keys == [] ==> i == 0)
  }

  lemma GenerateStep(text: string, n: nat, k: nat, cond: Dict<string, Dict<char, nat>>, seed: string, length: nat,
                     out: string, contexts: seq<string>, i: nat, c: string, x: char)
    requires Generating(text, n, k, cond, seed, length, out, contexts, i) && i < length
    requires Dicts.Valid(cond) && c in cond.m && Follows(text, c, x, k) > 0
    requires SliceFrom(out, -(n - 1)) in cond.m ==> c == SliceFrom(out, -(n - 1))
    ensures Generating(text, n, k, cond, seed, length, out + [x], contexts + [c], i + 1)
  {
    DrawnAllStep(text, n, k, cond, out, |seed|, contexts, c, x);
    assert (out + [x])[..|seed|] == out[..|seed|];
  }


  // ---------------------------------------------------------------------------

  /** The fields of a `ModeloNgramasCaracteres` hold the exact counts of the windows of its text. */
  ghost predicate ModelOk(text: string, n: nat, joint: Dict<string, nat>, cond: Dict<string, Dict<char, nat>>,
                          totals: Dict<string, nat>, total: nat)
  {
    && JointOk(text, n, WindowCount(|text|, n), joint)
    && CondOk(text, n, WindowCount(|text|, n), cond, totals)
    && total == WindowCount(|text|, n)
  }

  /** `prob_condicional` on the values of the fields: the new conditional table and the share read. */
  lemma ConditionalLookup(text: string, n: nat, joint: Dict<string, nat>, cond: Dict<string, Dict<char, nat>>,
                          totals: Dict<string, nat>, total: nat, c: string, x: char)
    requires ModelOk(text, n, joint, cond, totals, total) && c in totals.m && totals.m[c] > 0
    ensures c in cond.m && ModelOk(text, n, joint, TouchRow(cond, c, x), totals, total)
    ensures TouchRow(cond, c, x).keys == cond.keys
    ensures var k := WindowCount(|text|, n);
      && n >= 2 && |c| == n - 1 && Occurrences(text, c, k) > 0 && x in TouchRow(cond, c, x).m[c].m
      && TouchRow(cond, c, x).m[c].m[x] as real / totals.m[c] as real == Follows(text, c, x, k) as real / Occurrences(text, c, k) as real
  {
    var k := WindowCount(|text|, n);
    KnownContext(text, n, k, cond, totals, c);
    CondTouch(text, n, k, cond, totals, c, x);
    CondLookupAfter(text, n, k, cond, totals, c, x);
  }

  lemma CondLookupAfter(text: string, n: nat, k: nat, cond: Dict<string, Dict<char, nat>>, totals: Dict<string, nat>,
                        c: string, x: char)
    requires CondOk(text, n, k, cond, totals) && c in cond.m && CondOk(text, n, k, TouchRow(cond, c, x), totals)
    ensures c in totals.m && totals.m[c] == Occurrences(text, c, k)
    ensures x in TouchRow(cond, c, x).m[c].m && TouchRow(cond, c, x).m[c].m[x] == Follows(text, c, x, k)
  {
  }

  /** `ModeloNGramaCaracteres(n, texto)` */
  class CharNGramModel {
    const n: nat
    const text: string
    var joint: Dict<string, nat>                  // conjuntas
    var cond: Dict<string, Dict<char, nat>>       // condicionales
    var contextTotals: Dict<string, nat>          // contextos_totales
    var total: nat                                // total_ngramas

    /** `len(range(len(texto) - n + 1))`: the number of window start positions. */
    function Starts(): nat
    {
      WindowCount(|text|, n)
    }

    ghost predicate Valid()
      reads this
    {
      ModelOk(text, n, joint, cond, contextTotals, total)
    }

    /**
     `__init__` followed by `_calcular_probabilidades`: every window of length n is
     counted once in `conjuntas`, its context and last character in `condicionales`
     and `contextos_totales`.
     */
    constructor (n: nat, text: string)
      ensures this.n == n && this.text == text
      ensures Valid() && NoZeroCounts(n, joint, cond)
      ensures total == if |text| + 1 >= n then |text| + 1 - n else 0
    {
      this.n := n;
      this.text := text;
      var j, c, t := CountNGrams(text, n);
      joint, cond, contextTotals := j, c, t;
      total := Total(j);
    }

    /**
     `prob_conjunta(ngrama)`: the share of windows that are `w`. When windows were counted,
     `conjuntas[ngrama]` is evaluated and inserts a zero count for an unseen key.
     */
    method JointProbability(w: string) returns (p: real)
      requires Valid()
      modifies this`joint
      ensures Valid()
      ensures joint == if total > 0 then Touch(old(joint), w, 0) else old(joint)
      ensures p == if total > 0 then (if |w| == n then Occurrences(text, w, total) else 0) as real / total as real else 0.0
    {
      if total > 0 {
        JointTouch(text, n, total, joint, w);
        joint := Touch(joint, w, 0);
        assert ModelOk(text, n, joint, cond, contextTotals, total);
        p := joint.m[w] as real / total as real;
      } else {
        p := 0.0;
      }
    }

    /**
     `prob_condicional(contexto, siguiente)`: for a known context, the share of its windows
     whose last character is `x`; the lookup `condicionales[contexto][siguiente]` inserts a
     zero count into that row for an unseen character. Unknown contexts give 0 and change nothing.
     */
    method ConditionalProbability(c: string, x: char) returns (p: real)
      requires Valid()
      modifies this`cond
      ensures Valid()
      ensures cond.keys == old(cond.keys)
      ensures cond == if c in contextTotals.m then TouchRow(old(cond), c, x) else old(cond)
      ensures var k := Starts();
        p == if n >= 2 && |c| == n - 1 && Occurrences(text, c, k) > 0
             then Follows(text, c, x, k) as real / Occurrences(text, c, k) as real
             else 0.0
    {
      KnownContext(text, n, Starts(), cond, contextTotals, c);
      if c in contextTotals.m && contextTotals.m[c] > 0 {
        ConditionalLookup(text, n, joint, cond, contextTotals, total, c, x);
        cond := TouchRow(cond, c, x);
        assert ModelOk(text, n, joint, cond, contextTotals, total);
        p := cond.m[c].m[x] as real / contextTotals.m[c] as real;
      } else {
        p := 0.0;
      }
    }

    /**
     `generar_texto(semilla, longitud)`. A seed of the wrong length is a `ValueError`.
     Otherwise each of `length` steps draws the next character from the row of the current
     context, restarting from a uniformly drawn known context when the current one is
     unknown; with no known context at all it stops. `contexts` records the context each
     character was drawn from. Draw t of the random source is `rng(t)`.
     */
    method Generate(seed: string, length: nat, rng: nat -> real) returns (r: Result<string>, ghost contexts: seq<string>)
      requires Valid() && IsRandomSource(rng)
      ensures r.Err? <==> |seed| != n - 1
      ensures r.Err? ==> r.error == ValueError
      ensures r.Ok? ==> |seed| <= |r.value| <= |seed| + length && r.value[..|seed|] == seed
      ensures r.Ok? && cond.keys != [] ==> |r.value| == |seed| + length
      ensures r.Ok? && cond.keys == [] ==> r.value == seed
      ensures r.Ok? ==> |contexts| == |r.value| - |seed| && DrawnAll(text, n, Starts(), cond, r.value, |seed|, contexts)
    {
      if |seed| != n - 1 {
        return Err(ValueError), [];
      }
      CondGenerative(text, n, Starts(), cond, contextTotals);
      var out;
      out, contexts := GenerateFrom(text, n, Starts(), cond, seed, length, rng);
      r := Ok(out);
    }

    /** `get_top_ngramas(top_n)`: the most frequent windows, ties in first-seen order. */
    function TopNGrams(topN: nat): (r: seq<(string, nat)>)
      reads this
      requires Valid()
      ensures |r| == if topN < |joint.keys| then topN else |joint.keys|
      ensures Descending(r) && DistinctKeys(r)
      ensures forall i :: 0 <= i < |r| ==>
        r[i].0 in joint.m && r[i].1 == (if |r[i].0| == n then Occurrences(text, r[i].0, Starts()) else 0)
    {
      Top(joint, topN)
    }
  }
}
