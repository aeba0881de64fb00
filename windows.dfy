/**
 Counting sliding windows of stride 1: the specification every count table of the
 engine is proved against. `Occurrences(s, w, k)` is the number of start positions
 `j < k` at which `w` occurs contiguously in `s`.
 */
module Windows {

  function Occurrences<T(==)>(s: seq<T>, w: seq<T>, k: nat): nat
  {
    if k == 0 then 0
    else Occurrences(s, w, k - 1) + (if k - 1 + |w| <= |s| && s[k - 1..k - 1 + |w|] == w then 1 else 0)
  }

  /** The number of positions in `range(len - n + 1)`: how many length-n windows a text has. */
  function WindowCount(len: nat, n: nat): nat
  {
    if len + 1 >= n then len + 1 - n else 0
  }

  /** How often the context `c` followed by `x` occurs (quantifiers hang on this term). */
  function Follows<T(==)>(s: seq<T>, c: seq<T>, x: T, k: nat): nat
  {
    Occurrences(s, c + [x], k)
  }

  /** A positive count is witnessed by a position where the window really is `w`. */
  lemma {:induction false} OccurrencesWitness<T>(s: seq<T>, w: seq<T>, k: nat) returns (j: nat)
    requires Occurrences(s, w, k) > 0
    ensures j < k && j + |w| <= |s| && s[j..j + |w|] == w
  {
    if Occurrences(s, w, k - 1) > 0 {
      j := OccurrencesWitness(s, w, k - 1);
    } else {
      j := k - 1;
    }
  }

  /** Counting over more start positions never counts fewer windows. */
  lemma {:induction false} OccurrencesMonotone<T>(s: seq<T>, w: seq<T>, k: nat, k': nat)
    requires k <= k'
    ensures Occurrences(s, w, k) <= Occurrences(s, w, k')
  {
    if k < k' {
      OccurrencesMonotone(s, w, k, k' - 1);
    }
  }

  /** A window that is present at a position below `k` is counted. */
  lemma {:induction false} OccurrencesPresent<T>(s: seq<T>, w: seq<T>, k: nat, j: nat)
    requires j < k && j + |w| <= |s| && s[j..j + |w|] == w
    ensures Occurrences(s, w, k) > 0
  {
    if j < k - 1 {
      OccurrencesPresent(s, w, k - 1, j);
    }
  }

  /** A single element occurs at a position exactly when the sequence holds it there. */
  lemma SingletonWindow<T>(s: seq<T>, j: nat, x: T)
    requires j < |s|
    ensures (s[j..j + 1] == [x]) <==> s[j] == x
  {
    if s[j] == x {
      assert s[j..j + 1] == [x];
    }
  }

  /** Counting one more start position adds one exactly when the window is there. */
  lemma OccurrencesNext<T>(s: seq<T>, w: seq<T>, k: nat)
    ensures k + |w| <= |s| && s[k..k + |w|] == w ==> Occurrences(s, w, k + 1) == Occurrences(s, w, k) + 1
    ensures !(k + |w| <= |s| && s[k..k + |w|] == w) ==> Occurrences(s, w, k + 1) == Occurrences(s, w, k)
  {
  }

  /** A context followed by one more element occurs no more often than the context. */
  lemma {:induction false} FollowsAtMost<T>(s: seq<T>, c: seq<T>, x: T, k: nat)
    ensures Follows(s, c, x, k) <= Occurrences(s, c, k)
  {
    if k > 0 {
      FollowsAtMost(s, c, x, k - 1);
      var j := k - 1;
      if j + |c| + 1 <= |s| && s[j..j + |c| + 1] == c + [x] {
        assert s[j..j + |c|] == (c + [x])[..|c|] == c;
      }
    }
  }

  /** The slice up to the length is the whole sequence. */
  lemma FullSlice<T>(s: seq<T>)
    ensures s[..|s|] == s
  {
  }

  /** The window of length n at i is its first n - 1 elements followed by its last. */
  lemma WindowSplit<T>(s: seq<T>, i: nat, n: nat)
    requires 1 <= n && i + n <= |s|
    ensures s[i..i + n] == s[i..i + n - 1] + [s[i + n - 1]]
  {
  }

  /** Counting one more start position leaves a window's count alone when another window of its length is there. */
  lemma OccurrencesOther<T>(s: seq<T>, w: seq<T>, k: nat, v: seq<T>)
    requires k + |v| <= |s| && s[k..k + |v|] == v && |w| == |v| && w != v
    ensures Occurrences(s, w, k + 1) == Occurrences(s, w, k)
  {
  }

  /** Counting one more start position adds one when the window is there. */
  lemma OccurrencesHit<T>(s: seq<T>, w: seq<T>, k: nat)
    requires k + |w| <= |s| && s[k..k + |w|] == w
    ensures Occurrences(s, w, k + 1) == Occurrences(s, w, k) + 1
  {
  }

  lemma AppendInjective<T>(a: seq<T>, x: T, b: seq<T>, y: T)
    requires |a| == |b|
    ensures a + [x] == b + [y] <==> a == b && x == y
  {
    if a + [x] == b + [y] {
      assert a == (a + [x])[..|a|] && b == (b + [y])[..|b|];
      assert x == (a + [x])[|a|] && y == (b + [y])[|b|];
    }
  }

  /** Counting one more start position leaves `Follows(s, d, y, _)` alone when another pair of the same length is there. */
  lemma FollowsOther<T>(s: seq<T>, d: seq<T>, y: T, k: nat, c: seq<T>, x: T)
    requires k + |c| + 1 <= |s| && s[k..k + |c| + 1] == c + [x] && |d| == |c| && (d != c || y != x)
    ensures Follows(s, d, y, k + 1) == Follows(s, d, y, k)
  {
    AppendInjective(d, y, c, x);
    OccurrencesOther(s, d + [y], k, c + [x]);
  }
}
