/**
 The Python string operations the engine relies on: `str.split(sep)`, `sep.join`,
 dropping empty pieces, prefix tests and slicing with a possibly negative start.
 */
module Strings {

  /** `s.split(sep)`: the pieces between separators, empty pieces included; never empty. */
  function Split(s: string, sep: char): (r: seq<string>)
    ensures |r| >= 1
    ensures forall i :: 0 <= i < |r| ==> sep !in r[i]
  {
    if s == [] then [[]]
    else
      var rest := Split(s[1..], sep);
      if s[0] == sep then [[]] + rest else [[s[0]] + rest[0]] + rest[1..]
  }

  /** `sep.join(ws)` */
  function Join(ws: seq<string>, sep: char): string
  {
    if ws == [] then [] else if |ws| == 1 then ws[0] else ws[0] + [sep] + Join(ws[1..], sep)
  }

  /** `[p for p in ws if p]` */
  function NonEmpty(ws: seq<string>): (r: seq<string>)
    ensures forall i :: 0 <= i < |r| ==> r[i] != [] && r[i] in ws
    ensures |r| <= |ws|
  {
    if ws == [] then [] else (if ws[0] == [] then [] else [ws[0]]) + NonEmpty(ws[1..])
  }

  /** `[p for p in s.split(sep) if p]`: the words of a separator-joined text. */
  function Tokens(s: string, sep: char): (r: seq<string>)
    ensures forall i :: 0 <= i < |r| ==> r[i] != [] && sep !in r[i]
  {
    NonEmpty(Split(s, sep))
  }

  /** `s.startswith(p)` */
  predicate StartsWith(s: string, p: string)
  {
    |p| <= |s| && s[..|p|] == p
  }

  /** `s[a:]` for any integer `a`: a negative start counts from the end and is clamped at 0. */
  function SliceFrom(s: string, a: int): (r: string)
    ensures |r| <= |s| && r == s[|s| - |r|..]
  {
    var b := if a >= 0 then a else if |s| + a >= 0 then |s| + a else 0;
    if b > |s| then [] else s[b..]
  }

  /** `s[-m:]` keeps the last `m` characters, except that `s[-0:]` is the whole string. */
  lemma SliceFromNegative(s: string, m: int)
    requires m >= 0
    ensures m == 0 ==> SliceFrom(s, -m) == s
    ensures 0 < m <= |s| ==> SliceFrom(s, -m) == s[|s| - m..]
    ensures m > |s| ==> SliceFrom(s, -m) == s
  {
  }

  /** Splitting a separator-free prefix off a text. */
  lemma {:induction false} SplitPrefix(a: string, t: string, sep: char)
    requires sep !in a
    ensures Split(a + t, sep) == [a + Split(t, sep)[0]] + Split(t, sep)[1..]
  {
    var st := Split(t, sep);
    if a == [] {
      assert a + t == t;
      assert a + st[0] == st[0];
      assert [st[0]] + st[1..] == st;
    } else {
      assert (a + t)[1..] == a[1..] + t;
      SplitPrefix(a[1..], t, sep);
      assert [a[0]] + (a[1..] + st[0]) == a + st[0];
    }
  }

  /** Joining the pieces of a split gives the text back. */
  lemma {:induction false} JoinSplit(s: string, sep: char)
    ensures Join(Split(s, sep), sep) == s
  {
    if s != [] {
      var rest := Split(s[1..], sep);
      JoinSplit(s[1..], sep);
      if s[0] == sep {
        assert ([[]] + rest)[1..] == rest;
        assert s == [sep] + s[1..];
      } else {
        var r := [[s[0]] + rest[0]] + rest[1..];
        assert r[1..] == rest[1..];
        if |rest| == 1 {
          assert s == [s[0]] + rest[0];
        } else {
          assert Join(rest, sep) == rest[0] + [sep] + Join(rest[1..], sep);
          assert s == [s[0]] + s[1..];
        }
      }
    }
  }

  /** Splitting a join of separator-free pieces gives the pieces back. */
  lemma {:induction false} SplitJoin(ws: seq<string>, sep: char)
    requires ws != []
    requires forall i :: 0 <= i < |ws| ==> sep !in ws[i]
    ensures Split(Join(ws, sep), sep) == ws
  {
    if |ws| == 1 {
      SplitPrefix(ws[0], [], sep);
      assert ws[0] + [] == ws[0];
    } else {
      var t := Join(ws[1..], sep);
      assert Join(ws, sep) == ws[0] + ([sep] + t) by {
        assert ws[0] + [sep] + t == ws[0] + ([sep] + t);
      }
      assert Split([sep] + t, sep) == [[]] + ws[1..] by {
        SplitJoin(ws[1..], sep);
        assert ([sep] + t)[1..] == t;
      }
      SplitPrefix(ws[0], [sep] + t, sep);
      assert ws[0] + [] == ws[0];
      assert [ws[0]] + ws[1..] == ws;
    }
  }

  lemma {:induction false} NonEmptyKeeps(ws: seq<string>)
    requires forall i :: 0 <= i < |ws| ==> ws[i] != []
    ensures NonEmpty(ws) == ws
  {
    if ws != [] {
      NonEmptyKeeps(ws[1..]);
    }
  }

  /** Joining words with `_` and tokenizing the result gives the same words. */
  lemma TokensJoin(ws: seq<string>, sep: char)
    requires forall i :: 0 <= i < |ws| ==> ws[i] != [] && sep !in ws[i]
    ensures Tokens(Join(ws, sep), sep) == ws
  {
    if ws != [] {
      SplitJoin(ws, sep);
      NonEmptyKeeps(ws);
    }
  }
}
