/**
 The two text normalisers. `procesar_texto` (the same code in modelos_ngrams.py and in
 procesador_txt.py) lower-cases, decomposes, drops combining marks, deletes `. , ; \n \r`
 and writes spaces as `_`. `limpiar_texto` (teorema_bayes.py) lower-cases, decomposes,
 drops combining marks, keeps only `a`-`z`, `ñ` and whitespace, turns each run of
 whitespace into one space and strips both ends; that is the same as joining the words
 `str.split()` finds with single spaces, and those words are defined here too.

 `str.lower`, `unicodedata.normalize('NFD', _)` and `unicodedata.category(_) == 'Mn'` are
 library calls whose tables are not modelled: they are parameters `lower`, `nfd`, `isMn`.
 */
module Normalizer {
  import opened Strings

  /** `''.join(c for c in s if unicodedata.category(c) != 'Mn')` */
  function DropMarks(s: string, isMn: char -> bool): (r: string)
    ensures forall c :: c in r ==> c in s && !isMn(c)
    ensures forall c {:trigger multiset(r)[c]} :: multiset(r)[c] == if isMn(c) then 0 else multiset(s)[c]
  {
    if s == [] then []
    else
      assert s == [s[0]] + s[1..];
      (if isMn(s[0]) then [] else [s[0]]) + DropMarks(s[1..], isMn)
  }

  // ---------------------------------------------------------------------------
  // procesar_texto

  /** `s.replace(c, '')` */
  function Delete(s: string, c: char): (r: string)
    ensures c !in r
    ensures forall x :: x in r ==> x in s
  {
    if s == [] then [] else (if s[0] == c then [] else [s[0]]) + Delete(s[1..], c)
  }

  /** `s.replace(c, d)` for one-character strings `c` and `d` */
  function ReplaceChar(s: string, c: char, d: char): (r: string)
    ensures |r| == |s|
    ensures forall i :: 0 <= i < |s| ==> r[i] == if s[i] == c then d else s[i]
  {
    if s == [] then [] else [if s[0] == c then d else s[0]] + ReplaceChar(s[1..], c, d)
  }

  /** Lines 20-27 of procesador_txt.py: the five deletions, then spaces written as `_`. */
  function Punctuation(s: string): string
  {
    ReplaceChar(Delete(Delete(Delete(Delete(Delete(s, '.'), ','), ';'), '\n'), '\r'), ' ', '_')
  }

  /**
   `procesar_texto(texto)`: the marks dropped, then each character rewritten on its own; no mark
   (other than a `_`), deleted character or space survives, and every other character occurs as
   often as in the normalized text.
   */
  function ProcessText(text: string, lower: string -> string, nfd: string -> string, isMn: char -> bool): (r: string)
    ensures r == PieceWise(DropMarks(nfd(lower(text)), isMn))
    ensures forall c :: c in r ==> !Deleted(c) && c != ' ' && (c == '_' || !isMn(c))
    ensures forall c :: !Deleted(c) && c != ' ' && c != '_' ==>
      multiset(r)[c] == if isMn(c) then 0 else multiset(nfd(lower(text)))[c]
  {
    var d := DropMarks(nfd(lower(text)), isMn);
    PunctuationProperties(d);
    PieceWiseKeeps(d);
    Punctuation(d)
  }

  /** A character the punctuation stage deletes. */
  predicate Deleted(c: char)
  {
    c == '.' || c == ',' || c == ';' || c == '\n' || c == '\r'
  }

  /** What the punctuation stage writes for one character. */
  function Piece(c: char): string
  {
    if Deleted(c) then [] else if c == ' ' then "_" else [c]
  }

  /** The punctuation stage character by character: an independent reference definition. */
  function PieceWise(s: string): string
  {
    if s == [] then [] else Piece(s[0]) + PieceWise(s[1..])
  }

  /** How often `c` occurs in `s`. */
  function Count(s: string, c: char): nat
  {
    if s == [] then 0 else (if s[0] == c then 1 else 0) + Count(s[1..], c)
  }

  /** How many characters of `s` the punctuation stage deletes. */
  function DeletedCount(s: string): nat
  {
    if s == [] then 0 else (if Deleted(s[0]) then 1 else 0) + DeletedCount(s[1..])
  }

  lemma {:induction false} DeleteAppend(a: string, b: string, c: char)
    ensures Delete(a + b, c) == Delete(a, c) + Delete(b, c)
  {
    if a == [] {
      assert a + b == b;
    } else {
      var h := if a[0] == c then [] else [a[0]];
      assert (a + b)[0] == a[0] && (a + b)[1..] == a[1..] + b;
      assert Delete(a + b, c) == h + Delete(a[1..] + b, c);
      DeleteAppend(a[1..], b, c);
      assert h + (Delete(a[1..], c) + Delete(b, c)) == (h + Delete(a[1..], c)) + Delete(b, c);
    }
  }

  lemma ReplaceAppend(a: string, b: string, c: char, d: char)
    ensures ReplaceChar(a + b, c, d) == ReplaceChar(a, c, d) + ReplaceChar(b, c, d)
  {
  }

  /** The stage works on each character separately. */
  lemma PunctuationAppend(a: string, b: string)
    ensures Punctuation(a + b) == Punctuation(a) + Punctuation(b)
  {
    DeleteAppend(a, b, '.');
    DeleteAppend(Delete(a, '.'), Delete(b, '.'), ',');
    var a2, b2 := Delete(Delete(a, '.'), ','), Delete(Delete(b, '.'), ',');
    DeleteAppend(a2, b2, ';');
    var a3, b3 := Delete(a2, ';'), Delete(b2, ';');
    DeleteAppend(a3, b3, '\n');
    var a4, b4 := Delete(a3, '\n'), Delete(b3, '\n');
    DeleteAppend(a4, b4, '\r');
    ReplaceAppend(Delete(a4, '\r'), Delete(b4, '\r'), ' ', '_');
  }

  lemma DeleteOne(x: char, c: char)
    ensures Delete([x], c) == if x == c then [] else [x]
  {
    assert [x][1..] == [];
  }

  lemma PunctuationOne(x: char)
    ensures Punctuation([x]) == Piece(x)
  {
    DeleteOne(x, '.');
    DeleteOne(x, ',');
    DeleteOne(x, ';');
    DeleteOne(x, '\n');
    DeleteOne(x, '\r');
    assert Delete([], ',') == [] && Delete([], ';') == [] && Delete([], '\n') == [] && Delete([], '\r') == [];
  }

  /** Chaining the `replace` calls is the same as rewriting each character on its own. */
  lemma {:induction false} PunctuationPieceWise(s: string)
    ensures Punctuation(s) == PieceWise(s)
  {
    if s != [] {
      assert s == [s[0]] + s[1..];
      PunctuationAppend([s[0]], s[1..]);
      PunctuationOne(s[0]);
      PunctuationPieceWise(s[1..]);
    }
  }

  /** Nothing deleted and no space is left; every other character is one of the input's or a `_`. */
  lemma {:induction false} PieceWiseChars(s: string)
    ensures forall c :: c in PieceWise(s) ==> !Deleted(c) && c != ' ' && (c in s || c == '_')
  {
    if s != [] {
      PieceWiseChars(s[1..]);
      assert PieceWise(s) == Piece(s[0]) + PieceWise(s[1..]);
    }
  }

  /** The output is shorter than the input by the number of deleted characters. */
  lemma {:induction false} PieceWiseLength(s: string)
    ensures |PieceWise(s)| + DeletedCount(s) == |s|
  {
    if s != [] {
      PieceWiseLength(s[1..]);
    }
  }

  lemma CountAppend(a: string, b: string, c: char)
    ensures Count(a + b, c) == Count(a, c) + Count(b, c)
  {
    if a == [] {
      assert a + b == b;
    } else {
      assert (a + b)[1..] == a[1..] + b;
      CountAppend(a[1..], b, c);
    }
  }

  /** Each `_` of the output was a space or a `_` of the input. */
  lemma {:induction false} PieceWiseUnderscores(s: string)
    ensures Count(PieceWise(s), '_') == Count(s, ' ') + Count(s, '_')
  {
    if s != [] {
      PieceWiseUnderscores(s[1..]);
      CountAppend(Piece(s[0]), PieceWise(s[1..]), '_');
      var p := Piece(s[0]);
      assert Count(p, '_') == if s[0] == ' ' || s[0] == '_' then 1 else 0 by {
        if p != [] {
          assert p[1..] == [];
        }
      }
    }
  }

  /** Every character other than the deleted ones, space and `_` occurs as often as in the input. */
  lemma {:induction false} PieceWiseKeeps(s: string)
    ensures forall c :: !Deleted(c) && c != ' ' && c != '_' ==> multiset(PieceWise(s))[c] == multiset(s)[c]
  {
    if s != [] {
      PieceWiseKeeps(s[1..]);
      assert s == [s[0]] + s[1..];
      assert multiset(PieceWise(s)) == multiset(Piece(s[0])) + multiset(PieceWise(s[1..]));
    }
  }

  /** A text without deleted characters and spaces is left as it is. */
  lemma {:induction false} PieceWiseFixed(s: string)
    requires forall c :: c in s ==> !Deleted(c) && c != ' '
    ensures PieceWise(s) == s
  {
    if s != [] {
      assert s[0] in s;
      PieceWiseFixed(s[1..]);
      assert s == [s[0]] + s[1..];
    }
  }

  /**
   The properties of lines 20-27: none of `. , ; \n \r` or space remains, the other
   characters are kept in order with spaces written as `_`, the length shrinks by the number
   of deleted characters, `_` counts the spaces and underscores, and a second pass is a no-op.
   */
  lemma PunctuationProperties(s: string)
    ensures Punctuation(s) == PieceWise(s)
    ensures forall c :: c in Punctuation(s) ==> !Deleted(c) && c != ' ' && (c in s || c == '_')
    ensures |Punctuation(s)| == |s| - DeletedCount(s)
    ensures Count(Punctuation(s), '_') == Count(s, ' ') + Count(s, '_')
    ensures Punctuation(Punctuation(s)) == Punctuation(s)
  {
    PunctuationPieceWise(s);
    PieceWiseChars(s);
    PieceWiseLength(s);
    PieceWiseUnderscores(s);
    PunctuationPieceWise(PieceWise(s));
    PieceWiseFixed(PieceWise(s));
  }

  // ---------------------------------------------------------------------------
  // limpiar_texto

  /** The characters of `str.isspace()`, which `\s` matches in a `str` pattern. */
  predicate IsSpace(c: char)
  {
    || ('\t' <= c <= '\r') || ('\U{1c}' <= c <= ' ') || c == '\U{85}' || c == '\U{a0}' || c == '\U{1680}'
    || ('\U{2000}' <= c <= '\U{200a}') || c == '\U{2028}' || c == '\U{2029}' || c == '\U{202f}'
    || c == '\U{205f}' || c == '\U{3000}'
  }

  /** The letters `[a-zñ]`. */
  predicate IsLetter(c: char)
  {
    ('a' <= c <= 'z') || c == '\U{f1}'
  }

  /** What `re.sub(r'[^a-zñ\s]', '', _)` keeps. */
  predicate Allowed(c: char)
  {
    IsLetter(c) || IsSpace(c)
  }

  /** `re.sub(r'[^a-zñ\s]', '', s)` */
  function KeepAllowed(s: string): (r: string)
    ensures forall i :: 0 <= i < |r| ==> Allowed(r[i])
    ensures forall c {:trigger multiset(r)[c]} :: multiset(r)[c] == if Allowed(c) then multiset(s)[c] else 0
  {
    if s == [] then []
    else
      assert s == [s[0]] + s[1..];
      (if Allowed(s[0]) then [s[0]] else []) + KeepAllowed(s[1..])
  }

  /** A text made of whitespace only. */
  predicate AllSpace(t: string)
  {
    forall i :: 0 <= i < |t| ==> IsSpace(t[i])
  }

  /** The leading whitespace of `s` removed (`s.lstrip()`). */
  function StripLeft(s: string): (r: string)
    ensures |r| <= |s| && r == s[|s| - |r|..]
    ensures r != [] ==> !IsSpace(r[0])
    ensures AllSpace(s[..|s| - |r|])
  {
    if s != [] && IsSpace(s[0]) then
      var r := StripLeft(s[1..]);
      assert s[..|s| - |r|] == [s[0]] + s[1..][..|s| - 1 - |r|];
      r
    else s
  }

  /** The trailing whitespace of `s` removed (`s.rstrip()`). */
  function StripRight(s: string): (r: string)
    ensures |r| <= |s| && r == s[..|r|]
    ensures r != [] ==> !IsSpace(r[|r| - 1])
    ensures AllSpace(s[|r|..])
  {
    if s != [] && IsSpace(s[|s| - 1]) then
      var r := StripRight(s[..|s| - 1]);
      assert s[|r|..] == s[..|s| - 1][|r|..] + [s[|s| - 1]];
      r
    else s
  }

  /** `re.sub(r'\s+', ' ', s)`: each maximal run of whitespace becomes one space. */
  function Collapse(s: string): (r: string)
    decreases |s|
  {
    if s == [] then []
    else if IsSpace(s[0]) then [' '] + Collapse(StripLeft(s[1..]))
    else [s[0]] + Collapse(s[1..])
  }

  /** A text with no whitespace in it. */
  predicate SpaceFree(w: string)
  {
    forall j :: 0 <= j < |w| ==> !IsSpace(w[j])
  }

  /** The pieces of `s` between whitespace characters, empty pieces included: `str.split` with every whitespace character as a separator. */
  function SplitSpace(s: string): (r: seq<string>)
    ensures |r| >= 1
    ensures forall i :: 0 <= i < |r| ==> SpaceFree(r[i])
  {
    if s == [] then [[]]
    else
      var rest := SplitSpace(s[1..]);
      if IsSpace(s[0]) then [[]] + rest
      else
        assert forall j :: 0 <= j < |[s[0]] + rest[0]| && j > 0 ==> ([s[0]] + rest[0])[j] == rest[0][j - 1];
        [[s[0]] + rest[0]] + rest[1..]
  }

  /** `texto.split()`: the maximal runs of non-whitespace characters. */
  function Words(s: string): (r: seq<string>)
    ensures forall i :: 0 <= i < |r| ==> r[i] != [] && SpaceFree(r[i])
  {
    var ws := SplitSpace(s);
    var r := NonEmpty(ws);
    assert forall i :: 0 <= i < |r| ==> SpaceFree(r[i]) by {
      forall i | 0 <= i < |r|
        ensures SpaceFree(r[i])
      {
        var k :| 0 <= k < |ws| && ws[k] == r[i];
      }
    }
    r
  }

  /**
   `limpiar_texto(t)`: the marks and the characters other than letters and whitespace dropped,
   then the words of what is left joined by single spaces, which is what collapsing the runs of
   whitespace and stripping both ends amounts to.
   */
  function CleanText(text: string, lower: string -> string, nfd: string -> string, isMn: char -> bool): (r: string)
    ensures r == Join(Words(KeepAllowed(DropMarks(nfd(lower(text)), isMn))), ' ')
  {
    var d := KeepAllowed(DropMarks(nfd(lower(text)), isMn));
    StripLeftCollapse(d);
    CollapseWords(StripLeft(d));
    WordsStripLeft(d);
    StripRight(StripLeft(Collapse(d)))
  }

  predicate LetterOrSpace(c: char)
  {
    IsLetter(c) || c == ' '
  }

  /** Letters and single spaces, no two spaces in a row. */
  ghost predicate Tidy(s: string)
  {
    && (forall i :: 0 <= i < |s| ==> LetterOrSpace(s[i]))
    && (forall i :: 0 <= i < |s| - 1 ==> !(s[i] == ' ' && s[i + 1] == ' '))
  }

  lemma LetterNotSpace(c: char)
    requires IsLetter(c)
    ensures !IsSpace(c) && c != ' '
  {
  }

  /** A letter, or a space before something other than a space, in front of a tidy text. */
  lemma TidyCons(x: char, u: string)
    requires Tidy(u) && LetterOrSpace(x) && (x == ' ' && u != [] ==> u[0] != ' ')
    ensures Tidy([x] + u)
  {
    var r := [x] + u;
    forall i | 0 <= i < |r| ensures LetterOrSpace(r[i]) {
      if i > 0 {
        assert r[i] == u[i - 1];
      }
    }
    forall i | 0 <= i < |r| - 1 ensures !(r[i] == ' ' && r[i + 1] == ' ') {
      if i > 0 {
        assert r[i] == u[i - 1] && r[i + 1] == u[i];
      }
    }
  }

  /** `Collapse` writes a space for leading whitespace and keeps any other first character. */
  lemma CollapseHead(s: string)
    requires s != []
    ensures Collapse(s) != [] && Collapse(s)[0] == if IsSpace(s[0]) then ' ' else s[0]
  {
  }

  /** Collapsing a text of letters and whitespace leaves letters and single spaces. */
  lemma {:induction false} CollapseTidy(s: string)
    requires forall i :: 0 <= i < |s| ==> Allowed(s[i])
    ensures Tidy(Collapse(s))
    decreases |s|
  {
    if s != [] {
      if IsSpace(s[0]) {
        var t := StripLeft(s[1..]);
        assert forall i :: 0 <= i < |t| ==> t[i] == s[|s| - |t| + i];
        CollapseTidy(t);
        if t != [] {
          CollapseHead(t);
          assert IsLetter(t[0]);
          LetterNotSpace(t[0]);
        }
        TidyCons(' ', Collapse(t));
      } else {
        var t := s[1..];
        assert forall i :: 0 <= i < |t| ==> t[i] == s[i + 1];
        CollapseTidy(t);
        assert IsLetter(s[0]);
        LetterNotSpace(s[0]);
        TidyCons(s[0], Collapse(t));
      }
    }
  }

  /** A slice of a tidy text is tidy. */
  lemma TidySlice(s: string, a: nat, b: nat)
    requires Tidy(s) && a <= b <= |s|
    ensures Tidy(s[a..b])
  {
    var t := s[a..b];
    assert forall i :: 0 <= i < |t| ==> t[i] == s[a + i];
  }

  /**
   The properties of lines 15-16 of teorema_bayes.py: only `a`-`z`, `ñ` and spaces are left,
   no two spaces are adjacent and neither end is a space.
   */
  lemma CleanTextTidy(text: string, lower: string -> string, nfd: string -> string, isMn: char -> bool)
    ensures var r := CleanText(text, lower, nfd, isMn);
      Tidy(r) && (r != [] ==> r[0] != ' ' && r[|r| - 1] != ' ')
  {
    CollapseTidy(KeepAllowed(DropMarks(nfd(lower(text)), isMn)));
    StripTidy(Collapse(KeepAllowed(DropMarks(nfd(lower(text)), isMn))));
  }

  /** `s.strip()` of a tidy text is tidy and has a space at neither end. */
  lemma StripTidy(s: string)
    requires Tidy(s)
    ensures var r := StripRight(StripLeft(s));
      Tidy(r) && (r != [] ==> r[0] != ' ' && r[|r| - 1] != ' ')
  {
    var l := StripLeft(s);
    TidySlice(s, |s| - |l|, |s|);
    var r := StripRight(l);
    TidySlice(l, 0, |r|);
    if r != [] {
      assert r[0] == l[0];
    }
  }

  /** The letters of `s`, in order. */
  function Letters(s: string): (r: string)
  {
    if s == [] then [] else (if IsLetter(s[0]) then [s[0]] else []) + Letters(s[1..])
  }

  lemma {:induction false} LettersAppend(a: string, b: string)
    ensures Letters(a + b) == Letters(a) + Letters(b)
  {
    if a == [] {
      assert a + b == b;
    } else {
      var h := if IsLetter(a[0]) then [a[0]] else [];
      assert (a + b)[0] == a[0] && (a + b)[1..] == a[1..] + b;
      assert Letters(a + b) == h + Letters(a[1..] + b);
      LettersAppend(a[1..], b);
      assert h + (Letters(a[1..]) + Letters(b)) == (h + Letters(a[1..])) + Letters(b);
    }
  }

  lemma {:induction false} LettersKeepAllowed(s: string)
    ensures Letters(KeepAllowed(s)) == Letters(s)
  {
    if s != [] {
      LettersKeepAllowed(s[1..]);
      var h := if Allowed(s[0]) then [s[0]] else [];
      LettersAppend(h, KeepAllowed(s[1..]));
      if h != [] {
        assert h[1..] == [];
      }
    }
  }

  lemma {:induction false} LettersStripLeft(s: string)
    ensures Letters(StripLeft(s)) == Letters(s)
  {
    if s != [] && IsSpace(s[0]) {
      var t := s[1..];
      LettersStripLeft(t);
      SpaceNotLetter(s[0]);
      assert Letters(s) == Letters(t);
    }
  }

  lemma SpaceNotLetter(c: char)
    requires IsSpace(c)
    ensures !IsLetter(c)
  {
  }

  lemma {:induction false} LettersStripRight(s: string)
    ensures Letters(StripRight(s)) == Letters(s)
  {
    if s != [] && IsSpace(s[|s| - 1]) {
      var init := s[..|s| - 1];
      LettersStripRight(init);
      assert s == init + [s[|s| - 1]];
      LettersAppend(init, [s[|s| - 1]]);
      assert !IsLetter(s[|s| - 1]);
      assert [s[|s| - 1]][1..] == [];
    }
  }

  lemma LettersCons(x: char, u: string)
    ensures Letters([x] + u) == (if IsLetter(x) then [x] else []) + Letters(u)
  {
    assert ([x] + u)[1..] == u;
  }

  lemma {:induction false} LettersCollapse(s: string)
    ensures Letters(Collapse(s)) == Letters(s)
    decreases |s|
  {
    if s != [] {
      var c, u := Collapse(s), s[1..];
      if IsSpace(s[0]) {
        var t := StripLeft(u);
        assert c == [' '] + Collapse(t);
        LettersCollapse(t);
        LettersStripLeft(u);
        LettersCons(' ', Collapse(t));
        SpaceNotLetter(s[0]);
        assert Letters(c) == Letters(u);
      } else {
        assert c == [s[0]] + Collapse(u);
        LettersCollapse(u);
        LettersCons(s[0], Collapse(u));
        assert Letters(c) == (if IsLetter(s[0]) then [s[0]] else []) + Letters(u);
      }
    }
  }

  /** `limpiar_texto` loses no letter: its letters are those of the text after the marks are dropped, in order. */
  lemma CleanTextLetters(text: string, lower: string -> string, nfd: string -> string, isMn: char -> bool)
    ensures Letters(CleanText(text, lower, nfd, isMn)) == Letters(DropMarks(nfd(lower(text)), isMn))
  {
    var d := DropMarks(nfd(lower(text)), isMn);
    LettersKeepAllowed(d);
    LettersCollapse(KeepAllowed(d));
    LettersStripLeft(Collapse(KeepAllowed(d)));
    LettersStripRight(StripLeft(Collapse(KeepAllowed(d))));
  }

  // ---------------------------------------------------------------------------
  // The whitespace of limpiar_texto and the words of texto.split()

  /** Collapsing whitespace leaves a whitespace-free prefix as it is. */
  lemma {:induction false} CollapseWord(w: string, rest: string)
    requires SpaceFree(w)
    ensures Collapse(w + rest) == w + Collapse(rest)
    decreases |w|
  {
    if w == [] {
      assert w + rest == rest;
    } else {
      var x := w + rest;
      assert x[0] == w[0] && !IsSpace(x[0]);
      assert x[1..] == w[1..] + rest;
      assert Collapse(x) == [x[0]] + Collapse(x[1..]);
      assert SpaceFree(w[1..]) by {
        assert forall j :: 0 <= j < |w[1..]| ==> w[1..][j] == w[j + 1];
      }
      CollapseWord(w[1..], rest);
      assert w == [w[0]] + w[1..];
    }
  }

  /** Splitting a whitespace-free prefix off a text. */
  lemma {:induction false} SplitWord(w: string, rest: string)
    requires SpaceFree(w)
    ensures SplitSpace(w + rest) == [w + SplitSpace(rest)[0]] + SplitSpace(rest)[1..]
    decreases |w|
  {
    var sr := SplitSpace(rest);
    if w == [] {
      assert w + rest == rest;
      assert w + sr[0] == sr[0];
      assert [sr[0]] + sr[1..] == sr;
    } else {
      assert (w + rest)[0] == w[0] && (w + rest)[1..] == w[1..] + rest;
      assert SpaceFree(w[1..]) by {
        assert forall j :: 0 <= j < |w[1..]| ==> w[1..][j] == w[j + 1];
      }
      SplitWord(w[1..], rest);
      assert [w[0]] + (w[1..] + sr[0]) == w + sr[0];
    }
  }

  /** Leading whitespace separates no word. */
  lemma WordsSpace(x: string)
    requires x != [] && IsSpace(x[0])
    ensures Words(x) == Words(x[1..])
  {
    var ws := SplitSpace(x[1..]);
    assert SplitSpace(x) == [[]] + ws;
    assert ([[]] + ws)[0] == [] && ([[]] + ws)[1..] == ws;
  }

  /** A word followed by the end of the text or by whitespace is the first word. */
  lemma WordsPrefix(w: string, rest: string)
    requires w != [] && SpaceFree(w)
    requires rest == [] || IsSpace(rest[0])
    ensures Words(w + rest) == [w] + Words(rest)
  {
    SplitWord(w, rest);
    var sr := SplitSpace(rest);
    var ws := [w + sr[0]] + sr[1..];
    if rest == [] {
      assert w + sr[0] == w;
      assert ws == [w];
      assert ws[1..] == [];
    } else {
      assert sr == [[]] + SplitSpace(rest[1..]);
      assert w + sr[0] == w;
      assert ws[0] == w && ws[1..] == sr[1..];
      WordsSpace(rest);
    }
  }

  /** `s.lstrip()` loses no word. */
  lemma {:induction false} WordsStripLeft(x: string)
    ensures Words(x) == Words(StripLeft(x))
    decreases |x|
  {
    if x != [] && IsSpace(x[0]) {
      WordsSpace(x);
      WordsStripLeft(x[1..]);
    }
  }

  /** `s.lstrip()` leaves a text that starts with a non-space as it is. */
  lemma StripLeftKeeps(s: string)
    requires s == [] || !IsSpace(s[0])
    ensures StripLeft(s) == s
  {
  }

  /** Collapsing and stripping leading whitespace can be done in either order. */
  lemma StripLeftCollapse(x: string)
    ensures StripLeft(Collapse(x)) == Collapse(StripLeft(x))
  {
    if x != [] {
      if IsSpace(x[0]) {
        StripLeftCollapseSpace(x);
      } else {
        CollapseHead(x);
        StripLeftKeeps(x);
        StripLeftKeeps(Collapse(x));
      }
    }
  }

  lemma StripLeftCollapseSpace(x: string)
    requires x != [] && IsSpace(x[0])
    ensures StripLeft(Collapse(x)) == Collapse(StripLeft(x))
  {
    var y := StripLeft(x[1..]);
    var c := Collapse(y);
    assert Collapse(x) == [' '] + c;
    assert StripLeft([' '] + c) == StripLeft(c) by {
      assert ([' '] + c)[0] == ' ' && ([' '] + c)[1..] == c;
    }
    assert StripLeft(x) == y;
    if y != [] {
      CollapseHead(y);
    }
    StripLeftKeeps(c);
  }

  /** `s.rstrip()` only looks past a suffix that starts with a non-space. */
  lemma {:induction false} StripRightAppend(a: string, b: string)
    requires b != [] && !IsSpace(b[0])
    ensures StripRight(a + b) == a + StripRight(b)
    decreases |b|
  {
    if IsSpace(b[|b| - 1]) {
      var b' := b[..|b| - 1];
      assert (a + b)[..|a + b| - 1] == a + b';
      StripRightAppend(a, b');
    }
  }

  /** The first word of a text that starts with a non-space, and the rest. */
  function FirstSpace(s: string): (i: nat)
    ensures i <= |s| && (i < |s| ==> IsSpace(s[i]))
    ensures SpaceFree(s[..i])
  {
    if s == [] || IsSpace(s[0]) then 0
    else
      var k := FirstSpace(s[1..]);
      assert forall j :: 0 <= j < k ==> s[..1 + k][j + 1] == s[1..][..k][j];
      1 + k
  }

  /** `s.rstrip()` leaves a word as it is. */
  lemma StripRightWord(w: string)
    requires w != [] && SpaceFree(w)
    ensures StripRight(w) == w
  {
    assert !IsSpace(w[|w| - 1]);
  }

  /** A word, then whitespace: one space stands for the whitespace, and the word comes first. */
  lemma WordThenSpace(w: string, rest: string)
    requires w != [] && SpaceFree(w)
    requires rest != [] && IsSpace(rest[0])
    ensures Collapse(w + rest) == (w + [' ']) + Collapse(StripLeft(rest[1..]))
    ensures Words(w + rest) == [w] + Words(StripLeft(rest[1..]))
  {
    var c := Collapse(StripLeft(rest[1..]));
    CollapseWord(w, rest);
    assert Collapse(rest) == [' '] + c;
    assert w + ([' '] + c) == (w + [' ']) + c;
    WordsAfterWord(w, rest);
  }

  lemma WordsAfterWord(w: string, rest: string)
    requires w != [] && SpaceFree(w)
    requires rest != [] && IsSpace(rest[0])
    ensures Words(w + rest) == [w] + Words(StripLeft(rest[1..]))
  {
    WordsPrefix(w, rest);
    WordsSpace(rest);
    WordsStripLeft(rest[1..]);
  }

  lemma JoinCons(w: string, ws: seq<string>)
    requires ws != []
    ensures Join([w] + ws, ' ') == w + [' '] + Join(ws, ' ')
  {
    assert ([w] + ws)[1..] == ws;
  }

  /** The last word, possibly followed by one space, is left as it is. */
  lemma LastWord(w: string)
    requires w != [] && SpaceFree(w)
    ensures StripRight(w) == Join([w], ' ')
    ensures StripRight(w + [' ']) == Join([w], ' ')
  {
    StripRightWord(w);
    assert (w + [' '])[..|w|] == w;
  }

  /** A word, then one space and the collapsed rest of the text. */
  lemma NextWord(w: string, y: string)
    requires w != [] && SpaceFree(w)
    requires y != [] && !IsSpace(y[0])
    requires StripRight(Collapse(y)) == Join(Words(y), ' ')
    ensures StripRight((w + [' ']) + Collapse(y)) == Join([w] + Words(y), ' ')
  {
    CollapseHead(y);
    StripRightAppend(w + [' '], Collapse(y));
    WordsPrefixOf(y);
    JoinCons(w, Words(y));
  }

  /** `re.sub(r'\s+', ' ', x).rstrip()` is `' '.join(x.split())` for a text that does not start with whitespace. */
  lemma {:induction false} CollapseWords(x: string)
    requires x == [] || !IsSpace(x[0])
    ensures StripRight(Collapse(x)) == Join(Words(x), ' ')
    decreases |x|
  {
    if x == [] {
      assert Words(x) == [];
    } else {
      var i := FirstSpace(x);
      var w, rest := x[..i], x[i..];
      assert x == w + rest;
      assert i > 0;
      if rest == [] {
        CollapseWord(w, rest);
        WordsPrefix(w, rest);
        assert w + rest == w && Collapse(rest) == [] && Words(rest) == [];
        LastWord(w);
      } else {
        var y := StripLeft(rest[1..]);
        WordThenSpace(w, rest);
        if y == [] {
          assert Collapse(y) == [] && Words(y) == [];
          assert (w + [' ']) + [] == w + [' '] && [w] + [] == [w];
          LastWord(w);
        } else {
          CollapseWords(y);
          NextWord(w, y);
        }
      }
    }
  }

  /** A text that starts with a non-space has a word. */
  lemma WordsPrefixOf(y: string)
    requires y != [] && !IsSpace(y[0])
    ensures Words(y) != []
  {
    var i := FirstSpace(y);
    assert i > 0;
    assert y == y[..i] + y[i..];
    WordsPrefix(y[..i], y[i..]);
  }

  /** Splitting words joined by single spaces gives the words back. */
  lemma {:induction false} WordsJoin(ws: seq<string>)
    requires forall i :: 0 <= i < |ws| ==> ws[i] != [] && SpaceFree(ws[i])
    ensures Words(Join(ws, ' ')) == ws
  {
    if ws == [] {
      assert Words([]) == [];
    } else if |ws| == 1 {
      WordsPrefix(ws[0], []);
      assert ws[0] + [] == ws[0];
      assert Words([]) == [];
    } else {
      var t := Join(ws[1..], ' ');
      assert Join(ws, ' ') == ws[0] + ([' '] + t);
      WordsPrefix(ws[0], [' '] + t);
      WordsSpace([' '] + t);
      assert ([' '] + t)[1..] == t;
      WordsJoin(ws[1..]);
      assert [ws[0]] + ws[1..] == ws;
    }
  }

  /** The words `texto.split()` finds in `limpiar_texto(t)` are those of the text before its whitespace was tidied. */
  lemma CleanTextWords(text: string, lower: string -> string, nfd: string -> string, isMn: char -> bool)
    ensures Words(CleanText(text, lower, nfd, isMn)) == Words(KeepAllowed(DropMarks(nfd(lower(text)), isMn)))
  {
    WordsJoin(Words(KeepAllowed(DropMarks(nfd(lower(text)), isMn))));
  }
}
