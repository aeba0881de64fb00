/**
 `calcular_metricas_consistencia`: how repetitive a generated text is, over its windows of
 four characters or over its `_`-separated words. A rate of 0 means nothing repeats.
 */
module Metrics {
  import opened Dicts
  import opened Windows
  import opened Strings

  /** The entries of the metrics dictionary for each kind of text. */
  datatype Metrics =
    | CharMetrics(repetitionRate: real, length: nat)                        // tasa_repeticion, longitud
    | WordMetrics(wordCount: nat, uniqueWords: nat, wordRepetitionRate: real) // num_palabras, palabras_unicas, tasa_repeticion_palabras

  /** `set(s)` */
  function Elements<T>(s: seq<T>): set<T>
  {
    set x | x in s
  }

  /** A sequence has at most as many distinct elements as entries, and exactly as many when none repeats. */
  lemma {:induction false} ElementsCard<T>(s: seq<T>)
    ensures |Elements(s)| <= |s|
    ensures |Elements(s)| == |s| <==> Distinct(s)
  {
    if s != [] {
      var init, x := s[..|s| - 1], s[|s| - 1];
      ElementsCard(init);
      assert s == init + [x];
      assert Elements(s) == Elements(init) + {x};
      if x in init {
        assert Elements(s) == Elements(init);
        var j :| 0 <= j < |init| && init[j] == x;
        assert s[j] == s[|s| - 1];
      } else {
        assert Distinct(s) <==> Distinct(init) by {
          if Distinct(init) {
            forall i, j | 0 <= i < j < |s| ensures s[i] != s[j] {
              if j < |s| - 1 {
                assert s[i] == init[i] && s[j] == init[j];
              } else {
                assert s[i] == init[i];
              }
            }
          }
          if Distinct(s) {
            forall i, j | 0 <= i < j < |init| ensures init[i] != init[j] {
              assert s[i] == init[i] && s[j] == init[j];
            }
          }
        }
      }
    }
  }

  /** `1 - unique/total if total > 0 else 0`: the share of the `total` entries that repeat an earlier one, 0 for none. */
  function RepetitionRate(unique: nat, total: nat): (r: real)
    ensures total == 0 ==> r == 0.0
    ensures total > 0 ==> r * total as real == total as real - unique as real
  {
    if total > 0 then
      var q := unique as real / total as real;
      assert q * total as real == unique as real;
      1.0 - q
    else 0.0
  }

  /** With between 1 and `total` distinct entries the rate lies in [0, 1), and it is 0 exactly when none repeats. */
  lemma RateBounds(unique: nat, total: nat)
    requires unique <= total && (total > 0 ==> unique > 0)
    ensures 0.0 <= RepetitionRate(unique, total) < 1.0
    ensures RepetitionRate(unique, total) == 0.0 <==> unique == total
  {
    if total > 0 {
      var q := unique as real / total as real;
      assert q * total as real == unique as real;
      assert 0.0 < q <= 1.0;
      if q == 1.0 {
        assert unique as real == total as real;
      }
    }
  }

  /** `[texto[i:i+4] for i in range(len(texto) - 4 + 1)]` */
  function FourGrams(text: string): (r: seq<string>)
    ensures |r| == WindowCount(|text|, 4)
    ensures forall i :: 0 <= i < |r| ==> r[i] == text[i..i + 4]
  {
    seq(WindowCount(|text|, 4), i requires 0 <= i < WindowCount(|text|, 4) => text[i..i + 4])
  }

  /** Lines 172-178 of modelos_ngrams.py: the share of repeated 4-character windows and the length. */
  function CharMetricsOf(text: string): (r: Metrics)
    ensures r.CharMetrics?
    ensures r.length == |text|
    ensures |text| < 4 ==> r.repetitionRate == 0.0
    ensures |FourGrams(text)| > 0 ==>
      r.repetitionRate == 1.0 - |Elements(FourGrams(text))| as real / |FourGrams(text)| as real
    ensures 0.0 <= r.repetitionRate < 1.0
    ensures r.repetitionRate == 0.0 <==> Distinct(FourGrams(text))
  {
    var grams := FourGrams(text);
    RatesOf(grams);
    CharMetrics(RepetitionRate(|Elements(grams)|, |grams|), |text|)
  }

  /** Lines 179-184 of modelos_ngrams.py: the number of words, of distinct words and the share of repeated words. */
  function WordMetricsOf(text: string): (r: Metrics)
    ensures r.WordMetrics?
    ensures r.wordCount == |Tokens(text, '_')| && r.uniqueWords == |Elements(Tokens(text, '_'))|
    ensures r.uniqueWords <= r.wordCount
    ensures r.wordCount == 0 ==> r.wordRepetitionRate == 0.0
    ensures r.wordCount > 0 ==> r.wordRepetitionRate == 1.0 - r.uniqueWords as real / r.wordCount as real
    ensures 0.0 <= r.wordRepetitionRate < 1.0
    ensures r.wordRepetitionRate == 0.0 <==> Distinct(Tokens(text, '_'))
  {
    var words := Tokens(text, '_');
    RatesOf(words);
    WordMetrics(|words|, |Elements(words)|, RepetitionRate(|Elements(words)|, |words|))
  }

  /**
   `calcular_metricas_consistencia(texto, modelo_usado, tipo)`: for `tipo == 'caracter'` the
   share of repeated 4-character windows and the length of the text, for any other `tipo`
   the number of words, of distinct words and the share of repeated words, each share being
   `1 - unique/total`, or 0 with nothing to count.
   */
  function ConsistencyMetrics(text: string, kind: string): (r: Metrics)
    ensures kind == "caracter" <==> r.CharMetrics?
    ensures r.CharMetrics? ==>
      && r.length == |text|
      && (|text| < 4 ==> r.repetitionRate == 0.0)
      && (|FourGrams(text)| > 0 ==> r.repetitionRate == 1.0 - |Elements(FourGrams(text))| as real / |FourGrams(text)| as real)
      && 0.0 <= r.repetitionRate < 1.0
      && (r.repetitionRate == 0.0 <==> Distinct(FourGrams(text)))
    ensures r.WordMetrics? ==>
      && r.wordCount == |Tokens(text, '_')| && r.uniqueWords == |Elements(Tokens(text, '_'))|
      && r.uniqueWords <= r.wordCount
      && (r.wordCount == 0 ==> r.wordRepetitionRate == 0.0)
      && (r.wordCount > 0 ==> r.wordRepetitionRate == 1.0 - r.uniqueWords as real / r.wordCount as real)
      && 0.0 <= r.wordRepetitionRate < 1.0
      && (r.wordRepetitionRate == 0.0 <==> Distinct(Tokens(text, '_')))
  {
    if kind == "caracter" then CharMetricsOf(text) else WordMetricsOf(text)
  }

  /**
   The repetition rate of a sequence is the share of its entries that repeat an earlier one:
   it lies in [0, 1) and is 0 exactly when no entry repeats.
   */
  lemma RatesOf<T>(s: seq<T>)
    ensures |Elements(s)| <= |s|
    ensures RepetitionRate(|Elements(s)|, |s|) * |s| as real == |s| as real - |Elements(s)| as real
    ensures 0.0 <= RepetitionRate(|Elements(s)|, |s|) < 1.0
    ensures RepetitionRate(|Elements(s)|, |s|) == 0.0 <==> Distinct(s)
  {
    ElementsCard(s);
    if s != [] {
      assert s[0] in Elements(s);
    }
    RateBounds(|Elements(s)|, |s|);
  }

  /** One character repeated `n >= 4` times: all `n - 3` windows are equal, so the rate is `1 - 1/(n - 3)`. */
  lemma RepeatedCharRate(c: char, n: nat)
    requires n >= 4
    ensures var text := seq(n, _ => c);
      ConsistencyMetrics(text, "caracter").repetitionRate == 1.0 - 1.0 / (n - 3) as real
  {
    var text := seq(n, _ => c);
    var grams := FourGrams(text);
    var g := [c, c, c, c];
    assert |grams| == n - 3;
    assert forall i :: 0 <= i < |grams| ==> grams[i] == g;
    assert Elements(grams) == {g} by {
      assert grams[0] in Elements(grams);
    }
    var r := ConsistencyMetrics(text, "caracter").repetitionRate;
    var t := (n - 3) as real;
    assert r * t == t - 1.0;
    assert (1.0 - 1.0 / t) * t == t - 1.0;
  }
}
