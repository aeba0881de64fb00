# An n-gram text engine, modelled and proved in Dafny

This project models a small n-gram engine. The engine has four parts:

- a **character n-gram model** (`ModeloNGramaCaracteres`). One stride-1 pass over a text counts every window of `n` characters (`conjuntas`), every context of `n - 1` characters with the character that follows it (`condicionales`), and every context's total (`contextos_totales`). The model answers joint and conditional probability queries, generates text, and lists the most frequent n-grams.
- a **word bigram model** (`ModeloBigramaPalabras`). It does the same over the non-empty `_`-separated words of a processed text. Its generator restarts once, up front, from a random known word, and stops when a word has no successor.
- **two text normalisers**:
  - `procesar_texto` lower-cases, decomposes, drops combining marks, deletes `. , ; \n \r` and writes spaces as `_`;
  - `limpiar_texto` keeps only `a`-`z`, `ñ` and whitespace, collapses whitespace runs to one space and strips both ends.
- an **alternate pipeline** (teorema_bayes.py):
  - joint and conditional character distributions that skip the last window of the text;
  - a character generator with a "flexible prefix" restart;
  - a word successor table built at module level;
  - a word generator.

It also models the repetition metrics of generated text (`calcular_metricas_consistencia`).

Python dictionaries are modelled as `Dicts.Dict`: a sequence of keys in insertion order plus a map. This keeps the order that `random.choice(list(d.keys()))`, stable `sorted` and `sum(d.values())` see. The count tables are tied to specification functions on the text:

- `Windows.Occurrences(s, w, k)`: the window starts below `k` that hold `w`;
- `Windows.Follows(s, c, x, k)`: the starts below `k` that hold `c` followed by `x`;
- `WordModel.WordCount` and `WordModel.PairCount`: the same for words.

Probabilities are exact ratios of counts (`real`). The random source is a parameter `rng: nat -> real`: draw `t` is `rng(t)`, a value in `[0, 1)`. A weighted draw scales the draw by the total weight and takes the first index whose cumulative weight exceeds it, as `random.choices` does with `random.random()`. A uniform draw stands for `random.choice` and takes the index `floor(u * len)`. This reaches every index, but it is not CPython's own mapping, which draws random bits.

The two classes keep the source's mutable state as fields:

- Their constructors run the counting loop.
- The probability queries are methods, because a `defaultdict` lookup may insert a zero-count key. Their contracts show that this insertion changes no count, no total and no set of contexts.

Modules:

- `Dicts`, `Windows`, `Strings`, `Counters`, `Sampling`, `Ranking` and `Outcomes` are the supporting library (the Python built-ins).
- `Normalizer` holds both normalisers.
- `CharModel` and `WordModel` hold the two models of modelos_ngrams.py.
- `Metrics` holds the metrics.
- `Bayes` holds the teorema_bayes.py pipeline.

## Model

| member | source | states |
|---|---|---|
| Normalizer.PunctuationProperties | procesador_txt.py:20-27 | The deletion and replacement stage equals a character-by-character reference definition, so the other characters are kept in order. No `. , ; \n \r` or space remains. The length drops by the number of deleted characters. The `_` count is the number of spaces plus underscores. A second pass changes nothing. |
| Normalizer.ProcessText | procesador_txt.py:13-29 | `procesar_texto` is the mark filter followed by the character-by-character reference rewriting. No deleted character or space survives, and no mark survives except `_`, which may stand for a space. Every other character occurs exactly as often as in the lower-cased, decomposed text, or not at all if it is a mark. |
| Normalizer.PieceWiseKeeps | procesador_txt.py:20-27 | The rewriting keeps every character other than `. , ; \n \r`, space and `_` exactly as often as it occurs in its input. |
| Normalizer.DropMarks | procesador_txt.py:16-17 | The mark filter keeps every non-mark character exactly as often as it occurs in its input. It drops every mark. |
| Normalizer.Delete | procesador_txt.py:20-24 | `replace(c, '')` leaves no `c` and adds no new character. |
| Normalizer.ReplaceChar | procesador_txt.py:27 | `replace(' ', '_')` keeps the length and changes exactly the positions that held the replaced character. |
| Normalizer.CleanText | teorema_bayes.py:11-17 | `limpiar_texto` is the words of the filtered text joined by single spaces, with the filtered text being the mark-free text restricted to `a`-`z`, `ñ` and whitespace. So every whitespace run between words becomes exactly one space, and whitespace at either end disappears. |
| Normalizer.CollapseWords | teorema_bayes.py:16 | For a text that does not start with whitespace, collapsing each whitespace run to one space and stripping the end gives its words joined by single spaces. |
| Normalizer.StripLeftCollapse | teorema_bayes.py:16 | Collapsing the whitespace runs and stripping leading whitespace give the same result in either order. |
| Normalizer.WordsStripLeft | teorema_bayes.py:16 | Stripping leading whitespace loses no word. |
| Normalizer.CollapseTidy | teorema_bayes.py:15-16 | Collapsing the runs of a text of letters and whitespace leaves letters and single spaces, never two spaces in a row. |
| Normalizer.LettersCollapse | teorema_bayes.py:16 | Collapsing the whitespace runs keeps the letters, in order. |
| Normalizer.CleanTextTidy | teorema_bayes.py:11-17 | The output of `limpiar_texto` holds only `a`-`z`, `ñ` and spaces, never two spaces in a row, and no space at either end. |
| Normalizer.CleanTextLetters | teorema_bayes.py:11-17 | `limpiar_texto` loses no letter: its letters, in order, are those of the lower-cased, decomposed, mark-free text. |
| Normalizer.KeepAllowed | teorema_bayes.py:15 | The regex filter leaves only letters `a`-`z`, `ñ` and whitespace. It keeps each of these exactly as often as it occurs in its input. |
| Normalizer.StripLeft | teorema_bayes.py:16 | The result is a suffix of the input that does not start with whitespace. The removed prefix is whitespace only. |
| Normalizer.StripRight | teorema_bayes.py:16 | The result is a prefix of the input that does not end with whitespace. The removed suffix is whitespace only. |
| Normalizer.SplitSpace | teorema_bayes.py:85 | The pieces between whitespace characters: there is at least one, and none holds whitespace. |
| Normalizer.Words | teorema_bayes.py:85 | `texto.split()` gives non-empty words without whitespace. |
| Normalizer.WordsJoin | teorema_bayes.py:85 | Splitting non-empty whitespace-free words joined by single spaces gives the same words back. |
| Normalizer.CleanTextWords | teorema_bayes.py:85 | The words `texto.split()` finds in the output of `limpiar_texto` are exactly the words of the filtered text, in order. |
| CharModel.CountNGrams | modelos_ngrams.py:30-40 | After the pass over all `len(text) - n + 1` starts, each joint entry is the number of windows holding it, and every window has an entry. Each row entry is the number of times its character followed its context. Each context total is both the row's sum and the context's number of occurrences. Every seen context of `n - 1` characters has a row, and no count is zero. |
| CharModel.CharNGramModel.constructor | modelos_ngrams.py:21-43 | The fields hold the exact counts above, with no zero count. Every joint key has length `n`. `total_ngramas` is `max(len(texto) - n + 1, 0)`. |
| CharModel.CharNGramModel.JointProbability | modelos_ngrams.py:45-47 | The result is the share of windows equal to the query (0 for a key of another length, 0 when no window exists). The lookup only inserts a zero-count key, and the model stays exact. |
| CharModel.CharNGramModel.ConditionalProbability | modelos_ngrams.py:49-53 | For a context of `n - 1` characters that occurs, the result is the number of times `x` followed it over its occurrences; otherwise it is 0. The lookup inserts at most a zero entry into an existing row, adds no context, and the model stays exact. |
| CharModel.JointSumsToOne | modelos_ngrams.py:43-47 | Over the counted windows, the joint probabilities are window shares and add up to one. |
| CharModel.ConditionalSumsToOne | modelos_ngrams.py:49-53 | Over a known context, the conditional probabilities add up to one. |
| CharModel.KnownContext | modelos_ngrams.py:36-40 | A context has a total exactly when it has a row, which happens exactly when it has `n - 1` characters and starts a window. |
| CharModel.ConditionalLookup | modelos_ngrams.py:51-52 | A lookup of a known context keeps every table exact and leaves the context set unchanged. The share read is the follower's count over the context's count. |
| CharModel.CondGenerative | modelos_ngrams.py:64-80 | The tables of a text meet what generation needs: every row is non-empty by total and counts its followers exactly. |
| CharModel.GenerateFrom | modelos_ngrams.py:60-86 | The result starts with the seed. It has exactly `longitud` more characters when a context is known, and is just the seed otherwise. Each appended character followed, in the text, the context it was drawn from. That context is the last `n - 1` characters whenever these are a known context. |
| CharModel.CharNGramModel.Generate | modelos_ngrams.py:55-86 | `ValueError` exactly when the seed does not have `n - 1` characters. Otherwise: as `GenerateFrom`. |
| CharModel.CharNGramModel.TopNGrams | modelos_ngrams.py:88-90 | `min(top_n, #keys)` entries with distinct keys and non-increasing counts, each paired with its window count. |
| WordModel.CountBigrams | modelos_ngrams.py:106-117 | After the pass over the consecutive word pairs, each bigram entry is the pair's number of occurrences. Each row entry counts the pair. Each word total is the row's sum and the number of times the word occurs before the last position. Every seen word has a row, and no count is zero. |
| WordModel.WordBigramModel.constructor | modelos_ngrams.py:95-117 | The words are the non-empty `_`-separated tokens (so none is empty or holds `_`). The tables are exact. `total_bigramas` is `max(len(palabras) - 1, 0)`. |
| WordModel.WordBigramModel.JointProbability | modelos_ngrams.py:119-121 | The result is the share of pairs that are `(a, b)` (0 when there is no pair). The lookup only inserts a zero-count key. |
| WordModel.WordBigramModel.ConditionalProbability | modelos_ngrams.py:123-127 | For a word that starts a pair, the result is the pair's count over the word's count; otherwise it is 0. The lookup adds no context, and the model stays exact. |
| WordModel.BigramSumsToOne | modelos_ngrams.py:117-121 | The joint probabilities are pair shares and add up to one. |
| WordModel.ConditionalSumsToOne | modelos_ngrams.py:123-127 | The conditional probabilities of a known word add up to one. |
| WordModel.KnownWord | modelos_ngrams.py:114-115 | A word has a total exactly when it has a row, exactly when it starts a counted pair. |
| WordModel.ConditionalLookup | modelos_ngrams.py:125-126 | A lookup of a known word keeps every table exact and the word set unchanged. The share read is the pair count over the word count. |
| WordModel.JointLookup | modelos_ngrams.py:121 | A bigram lookup keeps every table exact and reads the pair's count. |
| WordModel.CondGenerative | modelos_ngrams.py:141-157 | Every known word occurs in the text and has a row of positive total counting its successors. |
| WordModel.SeedWords | modelos_ngrams.py:131-136 | A string seed becomes non-empty words without `_`; a list seed is taken as is. |
| WordModel.ChainedStep | modelos_ngrams.py:157-159 | Appending an observed successor of the last word keeps every word after the start an observed successor of the one before it. |
| WordModel.GenerateWordsFrom | modelos_ngrams.py:146-159 | The output starts with the start words. Every appended word is a word of the text and an observed successor of the previous word. There are `max(longitud, #start)` words, unless it stopped at a word with no successors. |
| WordModel.ContinuesProduced | modelos_ngrams.py:138-159 | The start chosen by the restart rule, continued by the loop, gives what `generar_texto` promises. |
| WordModel.CleanWords | modelos_ngrams.py:161 | Start words and words of the corpus, joined with `_`, tokenize back into the same words. |
| WordModel.GenerateWords | modelos_ngrams.py:129-161 | `IndexError` exactly when the seed gives no known last word and no word is known. Otherwise the words start with the seed, or, on a restart, with one known word. Each later word is an observed successor of the one before. There are at most `max(longitud, #start)` words, and fewer only when the last word has no successor. The result is their `_`-join, and it tokenizes back into them for a string seed. |
| WordModel.WordBigramModel.Generate | modelos_ngrams.py:129-161 | As `GenerateWords`, over the model's own tables. |
| WordModel.WordBigramModel.TopBigrams | modelos_ngrams.py:163-165 | `min(top_n, #keys)` entries with distinct keys and non-increasing counts, each paired with its pair count. |
| Ranking.Top | modelos_ngrams.py:88-90 | `min(top_n, #keys)` entries of the table, with distinct keys and non-increasing counts. |
| Ranking.TopDominates | modelos_ngrams.py:90 | Every entry left out counts no more than any entry kept. |
| Ranking.TopKeepsOrder | modelos_ngrams.py:90 | For each count, the kept entries with that count are the first ones of that count in insertion order, as a stable sort keeps them. |
| Ranking.SortByCount | modelos_ngrams.py:90 | The stable sort by descending count returns as many entries as it was given. |
| Ranking.SortByCountSorted | modelos_ngrams.py:90 | The sorted entries have non-increasing counts. |
| Ranking.SortByCountMembers | modelos_ngrams.py:90 | The sort is a permutation: the same entries, each as often. |
| Ranking.SortByCountStable | modelos_ngrams.py:165 | The stable sort by descending count keeps, for each count, the entries of that count in their original order. |
| Metrics.ConsistencyMetrics | modelos_ngrams.py:167-186 | `caracter` gives the character metrics and any other kind the word metrics. For `caracter`: `longitud` is the length, and `tasa_repeticion` is `1 - unique/total` over the 4-character windows. It is 0 when there are fewer than four characters, lies in `[0, 1)`, and is 0 exactly when no window repeats. For words: the word count is the number of non-empty `_`-tokens, and the unique count is at most that. The rate is `1 - unique/total`, or 0 with no words; it lies in `[0, 1)`, and is 0 exactly when no word repeats. |
| Metrics.CharMetricsOf | modelos_ngrams.py:171-178 | The character branch: `longitud` is the length, and the rate is `1 - unique/total` over the 4-character windows, 0 with none. It lies in `[0, 1)` and is 0 exactly when no window repeats. |
| Metrics.WordMetricsOf | modelos_ngrams.py:179-184 | The word branch: the counts of non-empty `_`-tokens and of distinct ones, and the rate `1 - unique/total`, 0 with no words. It lies in `[0, 1)` and is 0 exactly when no word repeats. |
| Metrics.RepeatedCharRate | modelos_ngrams.py:171-177 | One character repeated `N >= 4` times has the rate `1 - 1/(N - 3)`. |
| Metrics.FourGrams | modelos_ngrams.py:172-173 | The list of 4-character windows has one entry for each start up to `len(texto) - 4`, none for a text shorter than four, and entry `i` is the window that starts at `i`. |
| Metrics.RepetitionRate | modelos_ngrams.py:177 | With no entry the rate is 0. Otherwise the rate times the number of entries is the number of entries that are not unique. |
| Metrics.RatesOf | modelos_ngrams.py:174-184 | A sequence has at most as many distinct entries as entries. Its repetition rate times its length is the number of entries that repeat an earlier one. The rate lies in `[0, 1)` and is 0 exactly when no entry repeats. |
| Metrics.RateBounds | modelos_ngrams.py:177 | With between one and `total` unique entries, `1 - unique/total` lies in `[0, 1)` and is 0 exactly when all are unique. |
| Bayes.NGrams | teorema_bayes.py:28 | The window list has one entry for each start below `len(texto) - n` (none when there is no such start), and entry `i` is the `n`-character window that starts at `i`. |
| Bayes.StartsSkipLast | teorema_bayes.py:28 | `range(len(texto) - n)` has one start fewer than the pass of modelos_ngrams.py:32 whenever the text has a window, and none otherwise. |
| Bayes.NGramsCount | teorema_bayes.py:28 | The window list holds each string of length `n` as often as it occurs at the counted starts. |
| Bayes.JointOfCounter | teorema_bayes.py:28-30 | `total` is `max(len(texto) - n, 0)`. `p_conjunta` has a key exactly for each window of length `n` starting below `len(texto) - n`, holding its share of those windows. |
| Bayes.SplitCounts | teorema_bayes.py:32-35 | `IndexError` exactly when the empty string is a key. Otherwise each key's count is in the cell `cond[k[:-1]][k[-1]]`, every cell comes from a key, and each row is non-empty and adds up to the counts of the keys with its prefix. |
| Bayes.DivideRow | teorema_bayes.py:40-41 | Dividing a row in place gives every entry over the row total, with the key order unchanged. |
| Bayes.NormalizeRows | teorema_bayes.py:38-41 | Every row is divided by its own sum, and the prefixes are unchanged. |
| Bayes.CondOfSplit | teorema_bayes.py:32-41 | After normalisation, a cell exists exactly when prefix plus character is a counted window. Each cell is the share of the prefix's windows that go on with that character, and each row adds up to one. |
| Bayes.JointConditional | teorema_bayes.py:26-43 | `IndexError` exactly when `n = 0` and the text is not empty. Otherwise: the joint and conditional distributions above. The joint values add up to one when a window was counted. Every conditional row adds up to one. |
| Bayes.CondGenerable | teorema_bayes.py:69-78 | Every row of the conditional distribution is non-empty with positive values, as the generator's draws need. |
| Bayes.CondUniform | teorema_bayes.py:34 | All prefixes of the conditional distribution have `n - 1` characters. |
| Bayes.WithPrefix | teorema_bayes.py:61 | The filtered keys all start with the prefix. The list is non-empty whenever some key starts with it. |
| Bayes.Pass | teorema_bayes.py:70-78 | One loop pass: a draw from the prefix's row when the prefix is a key, otherwise the last character of a random key. `IndexError` exactly when that key is empty or there is no key. |
| Bayes.Continue | teorema_bayes.py:69-79 | The loop appends one character per pass until the text has `longitud` characters (or its start, if longer). Each character is drawn from the row of the current prefix, or is a random key's last character when the prefix is not a key. After a draw the prefix becomes `resultado[-(n-1):]`. |
| Bayes.GenerateWith | teorema_bayes.py:57-79 | When `resultado[-(n-1):]` is not a key, the text restarts from a key, and from one starting with that prefix whenever one exists. The loop then runs as in `Continue`. |
| Bayes.GenerateText | teorema_bayes.py:54-79 | As written: `IndexError` when the table is empty, because line 56 indexes the first key. `n` is the first key's length. Otherwise: the restart and loop of `GenerateWith`. |
| Bayes.RestartLength | teorema_bayes.py:60-67 | After the restart, the text the loop starts from is at least as long as a key. |
| Bayes.DrawFollows | teorema_bayes.py:71-73 | Driven by a text's distribution, every drawn character follows its prefix somewhere in the text. |
| Bayes.AsWrittenAlternates | teorema_bayes.py:56-78 | As written, with keys of `len` characters the kept prefix is never a key, so every draw is followed by a jump to a random key. |
| Bayes.GenerateTextFixed | teorema_bayes.py:54-79 | Corrected generator: the same restart and loop, with the prefix kept as the last `len(key)` characters. |
| Bayes.FixedFollowsSuffix | teorema_bayes.py:74 | Corrected: after a draw the prefix is the last `len(key)` characters of the text, and when it is a key the next character is drawn from its row. |
| Bayes.Pairs | teorema_bayes.py:86 | The pair list has one entry fewer than there are words (none without words), and entry `i` is the pair of words `i` and `i + 1`. |
| Bayes.PairsCount | teorema_bayes.py:86-87 | The pair list holds each pair as often as the two words stand next to each other. |
| Bayes.WordConditional | teorema_bayes.py:85-92 | `p_pal_cond` has a cell exactly for each pair of consecutive words, holding `count(w1, w2) / count(w1)`. Each row adds up to the share of `w1`'s occurrences that have a successor. |
| Bayes.FillTable | teorema_bayes.py:90-92 | The loop over the pair counts gives every counted pair its cell, holding the pair count over the first word's count, and keeps each row's running sum. |
| Bayes.TableFinal | teorema_bayes.py:85-92 | Once every pair of the text's `Counter` has its cell, the table is the word successor table of the text. |
| Bayes.RowSumLast | teorema_bayes.py:90-92 | A row adds up to at most one, and to exactly one exactly when its word is not the last word of the text. |
| Bayes.WordTableGenerable | teorema_bayes.py:97-106 | The word table of a text has non-empty rows of positive values, as `generar_palabras` needs. |
| Bayes.WordPass | teorema_bayes.py:98-106 | One loop pass: a weighted successor of the last word when it is a key, else a uniform word from the row of a uniform key. `IndexError` exactly when there is no key. |
| Bayes.GenerateWords | teorema_bayes.py:95-107 | `IndexError` exactly when words are missing and the table is empty. Otherwise there are `max(longitud, #inicio.split('_'))` words, starting with those of `inicio`, each later one drawn as in `WordPass`, joined with spaces. |
| Bayes.WordStepsOfText | teorema_bayes.py:99-106 | Driven by a text's table, a word drawn after a known word is an observed successor of it. A restart happens only after a word with no successor. |
| Strings.JoinSplit | teorema_bayes.py:96 | Joining the pieces of `split(sep)` gives the text back. |
| Strings.SplitJoin | modelos_ngrams.py:161 | Splitting a join of separator-free pieces gives the pieces back. |
| Strings.TokensJoin | modelos_ngrams.py:97-98 | Tokenizing the `_`-join of non-empty separator-free words gives the same words. |
| Strings.SliceFromNegative | modelos_ngrams.py:84 | `s[-m:]` keeps the last `m` characters for `0 < m <= len(s)`, and the whole string for `m == 0` (the `[-0:]` case) and for `m > len(s)`. |
| Sampling.ChoicesIndex | modelos_ngrams.py:80 | A weighted draw picks an index of positive weight. |
| Sampling.WeightedIndex | modelos_ngrams.py:80 | The index picked is the one whose cumulative-weight interval holds the scaled draw, and its weight is positive. |
| Sampling.PickWeighted | modelos_ngrams.py:76-80 | A weighted draw from a count row picks a key with a positive count. |
| Sampling.ChoiceIndex | modelos_ngrams.py:67 | A uniform draw picks an index below the population size. |
| Sampling.PickKey | modelos_ngrams.py:67 | A uniform draw from a table picks one of its keys. |
| Dicts.Touch | modelos_ngrams.py:45-53 | A `defaultdict` lookup of a key leaves the key present with its old value, or with the default if it was missing. Every other key and value is unchanged, and the key order is kept, with a new key appended. |
| Counters.CounterOf | teorema_bayes.py:87-88 | `Counter(xs)` has exactly the elements of `xs` as keys, each with its number of occurrences. |
| Counters.CounterSumWhere | teorema_bayes.py:91-92 | Over a `Counter`, the counts of the keys satisfying a condition add up to the number of elements that satisfy it. |

## Left out

- `main()` of modelos_ngrams.py (lines 188-381) and of procesador_txt.py (lines 31-50): file reads and writes, console output and demo seeds.
- The module-level I/O, calls and printing of teorema_bayes.py (lines 7-8, 19-20, 47-49, 113-126). The module-level word table (lines 85-92) is modelled as the method `Bayes.WordConditional`.
- `str.lower`, `unicodedata.normalize('NFD', _)` and `unicodedata.category(_) == 'Mn'`: foreign library tables. They are parameters `lower`, `nfd` and `isMn`. The whitespace class `\s` is written out as the characters `str.isspace()` accepts.
- The probability distribution of `random.choice` and `random.choices`. The random source is the parameter `rng`. Contracts state only that a drawn key exists and has positive weight.
- Sampling.ChoiceIndex: `floor(u * len)` of the abstract draw `u` stands for `random.choice`. CPython's `random.choice` calls `_randbelow`, which draws random bits rather than scaling `random.random()`, so which index a given draw selects is not modelled.
- Floating-point division: probabilities are exact ratios.
- The `modelo_usado` argument of `calcular_metricas_consistencia` is unused by the source and does not appear in `Metrics.ConsistencyMetrics`.
- Python default arguments (`n=2`, `longitud=250`, `top_n=10`, `tipo='caracter'`) are not modelled: every call passes its arguments.
- A negative `n`, `longitud` or `top_n` in the two models, and a negative `n` in `distribucion_conjunta_condicional` (`Bayes.JointConditional`): these are `nat`. Python would give a negative slice such as `[:-2]` or `texto[0:-1]`, or an empty loop. The other lengths in teorema_bayes.py are `int`, as there.
- A seed of `ModeloBigramaPalabras.generar_texto` that is neither a string nor a list: the seed is the datatype `WordModel.Seed`, either a string or a word list.
- Bayes.GenerateText: requires every row to be non-empty with positive weights (`Generable`). With an empty row `random.choices` raises, and with zero weights it raises `ValueError`; this is not modelled. Every table `distribucion_conjunta_condicional` builds meets the requirement (`Bayes.CondGenerable`).
- Bayes.GenerateTextFixed: the same `Generable` requirement as `Bayes.GenerateText`.
- Bayes.GenerateWords: requires `Generable`, as above. The word table of a text meets it (`Bayes.WordTableGenerable`).
- CharModel.CharNGramModel.Generate and WordModel.WordBigramModel.Generate: require a random source whose draws all lie in `[0, 1)` (`Sampling.IsRandomSource`).
- `distribucion_conjunta_condicional` with `0 < n` and a text shorter than `n + 1` characters gives empty tables (no division happens). This is modelled; it is noted here because it differs from modelos_ngrams.py, which still counts the one window of a text of exactly `n` characters.

## Findings

| source | as written | input that shows it | evidently intended | confidence | as-written member | corrected member |
|---|---|---|---|---|---|---|
| teorema_bayes.py:56-78 | `n = len(list(cond.keys())[0])` is the key length, which is already the n-gram size minus one. `resultado[-(n-1):]` then keeps one character fewer than a key, or the whole text when keys have one character, so the prefix is never a key after a draw. Every drawn character is followed by the last character of a random key. | `generar_texto(cond2, "el", 250)`: the keys of `cond2` have one character, and after the first draw the prefix is the whole text, never a key | keep the last `len(key)` characters (`n = len(key) + 1`), so each character is drawn from the row of the preceding context | not executed | Bayes.AsWrittenAlternates | Bayes.FixedFollowsSuffix |
