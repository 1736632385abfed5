# Spell_Checker in Dafny

A model of the spelling-suggestion core of the Spell_Checker repository
(`utils.py`). The model covers four things:

- **Two edit distances** (module `EditMetrics`).
  - Levenshtein distance and the restricted Damerau-Levenshtein distance (optimal string alignment, OSA).
  - Each is specified by a recurrence over prefix lengths.
  - Each is computed by the source's dynamic-programming method, which fills an `array2` table cell by cell.
  - Each method is proved to return the specification's value.
- **Two similarities** (module `JaroMetrics`).
  - Jaro and Jaro-Winkler similarity.
  - Specified by functions that replay the greedy matching pass (`MatchPrefix`), the transposition count (`Transpositions`) and the formulas.
  - Computed by methods that keep the source's flag arrays, counters, scan index `k` and prefix loop.
  - Each method is proved to return the specification's value.
- **The adapter `compute_distance`** (module `Adapter`).
  - The two name tables become maps onto a closed enumeration `Metric`.
  - An edit distance is returned as it is; a similarity becomes `1 - similarity`.
  - An unknown name is an `UnsupportedMetric` error result, which models Python's `KeyError`.
- **The search `spell_check`** (module `SpellChecker`). It runs, in order:
  - the length pre-filter;
  - scoring in submission order;
  - the distance threshold;
  - a stable sort by distance (an insertion sort that keeps equal keys in input order);
  - Python's slice `[:max_suggestions]`.

  The pipeline is proved equal to a reference definition, `Suggest`, built from `Eligible`: the dictionary words within both limits, in dictionary order. Soundness, completeness, ordering, stability and top-k are proved about that reference.

`Basics` holds `Option`, `Result`, `Min`, `Max`, Python's three-argument `min`
(`Min3`) and `Abs`.

Distances and similarities are exact `real`s. The dictionary is a
`seq<string>` taken in its iteration order. `max_distance` is an `int`; the
only caller leaves it at its default of 2.

Behaviour of `utils.py` kept as written, though a reader might expect otherwise:

- An unknown metric name fails only when at least one dictionary word passes the length filter. Only then is `compute_distance` called, and only then does the table lookup raise. With no candidate the result is an empty list (`SpellChecker.UnknownMetricWithoutCandidates`).
- `max_suggestions < 1` and `max_distance < 0` are not rejected. A negative `max_suggestions` follows Python's slice semantics and drops the last `-k` entries. A negative `max_distance` leaves nothing.
- Take the case where the longer string has length at most 1. Then `match_distance` is -1 and the window is empty, so nothing matches, not even equal characters at the same position. Two equal one-character strings score 0.0 under Jaro and 0.1 under Jaro-Winkler (`JaroMetrics.SingleCharacterQuirk`).

## Model

| member | source | states |
|---|---|---|
| EditMetrics.Levenshtein | utils.py:9-28 | the Levenshtein distance of two strings lies between the difference of their lengths and the longer length |
| EditMetrics.Cost | utils.py:20-23 | the substitution cost is at most 1 and is 0 exactly when the two characters are equal |
| EditMetrics.LevenshteinRec | utils.py:15-26 | the recurrence the table follows: row 0 holds j, column 0 holds i, and an inner cell is the minimum of deletion, insertion and substitution (no contract of its own; its properties are the lemmas below) |
| EditMetrics.LevenshteinDistanceDp | utils.py:9-28 | the table method returns the recursive Levenshtein distance of the whole strings, cell (m, n) |
| EditMetrics.LevenshteinCell | utils.py:15-26 | a cell computed from its three neighbours (or the row-0/column-0 base case) is the recursive distance of the two prefixes |
| EditMetrics.Damerau | utils.py:31-53 | the OSA distance lies between the difference of the lengths and the longer length |
| EditMetrics.DamerauRec | utils.py:36-51 | the OSA recurrence: the Levenshtein minimum, lowered to the cell two steps up the diagonal plus the cost when the last two characters are crossed (no contract of its own; its properties are the lemmas below) |
| EditMetrics.OsaCell | utils.py:43-51 | an inner OSA cell as a function of its neighbours, the cost and whether the swap step applies (no contract of its own; `OsaCellLeast` states what it is, `DamerauUnfold` ties it to the recurrence) |
| EditMetrics.OsaCellLeast | utils.py:43-51 | an inner OSA cell is at most each candidate edit (deletion, insertion, substitution and, when the last two characters are crossed, the swap from two cells up the diagonal) and equals one of them |
| EditMetrics.DamerauUnfold | utils.py:43-51 | every inner cell of the OSA recurrence is `OsaCell` of the cell above, the cell to the left, the diagonal cell and the cell two steps up the diagonal |
| EditMetrics.DamerauLevenshteinDistance | utils.py:31-53 | the table method, with its separate initialisation of row 0 and column 0, returns the recursive OSA distance |
| EditMetrics.DamerauCell | utils.py:43-51 | an inner cell, lowered by the adjacent-swap step when the two last characters are crossed, is the recursive OSA distance of the prefixes |
| EditMetrics.LevenshteinBounds | utils.py:15-26 | every table cell (i, j) lies between abs(i - j) and max(i, j) |
| EditMetrics.DamerauBounds | utils.py:36-51 | every OSA table cell (i, j) lies between abs(i - j) and max(i, j) |
| EditMetrics.DamerauLowerBound | utils.py:41-51 | no OSA cell, the swap step included, is below the difference of the prefix lengths |
| EditMetrics.DamerauUpperBound | utils.py:41-51 | no OSA cell is above the longer prefix length |
| EditMetrics.LevenshteinPrefixSelf | utils.py:20-26 | a prefix is at distance 0 from itself |
| EditMetrics.LevenshteinPrefixZero | utils.py:15-26 | a cell holding 0 means the two prefixes are equal |
| EditMetrics.LevenshteinZeroIffEqual | utils.py:9-28 | the Levenshtein distance is 0 if and only if the strings are equal |
| EditMetrics.LevenshteinPrefixSymmetric | utils.py:15-26 | cell (i, j) for (a, b) equals cell (j, i) for (b, a) |
| EditMetrics.LevenshteinSymmetric | utils.py:9-28 | the Levenshtein distance is symmetric |
| EditMetrics.DamerauPrefixSymmetric | utils.py:41-51 | OSA cell (i, j) for (a, b) equals cell (j, i) for (b, a), the swap step included |
| EditMetrics.DamerauSymmetric | utils.py:31-53 | the OSA distance is symmetric |
| EditMetrics.DamerauPrefixAtMostLevenshtein | utils.py:41-51 | every OSA cell is at most the matching Levenshtein cell, because the swap step only lowers the minimum |
| EditMetrics.DamerauAtMostLevenshtein | utils.py:31-53 | the OSA distance never exceeds the Levenshtein distance |
| EditMetrics.DamerauPrefixZero | utils.py:41-51 | an OSA cell holding 0 means the two prefixes are equal |
| EditMetrics.DamerauZeroIffEqual | utils.py:31-53 | the OSA distance is 0 if and only if the strings are equal |
| EditMetrics.AdjacentSwap | utils.py:50-51 | two distinct adjacent characters swapped ("ab" against "ba") are at OSA distance 1 and Levenshtein distance 2 |
| JaroMetrics.CountTo | utils.py:65-75 | the number of set flags in a prefix is at most its length |
| JaroMetrics.MatchedTo | utils.py:83-84 | the matched characters read in order are as many as the set flags |
| JaroMetrics.Mismatches | utils.py:87-88 | the number of differing positions is at most the length |
| JaroMetrics.MatchDistance | utils.py:63 | `max(len1, len2) // 2 - 1`, the window half-width; its range is `MatchDistanceNegative` |
| JaroMetrics.MatchDistanceNegative | utils.py:63 | the half-width is never below -1, and is -1 exactly when the longer string has at most one character |
| JaroMetrics.FirstFree | utils.py:72-76 | the inner loop's hit is the first unmatched equal character of the window, and None means the window holds none |
| JaroMetrics.MatchStep | utils.py:69-76 | one outer iteration: a[i] and the first free equal character of its window are marked and the counter rises, or nothing changes; what it keeps is `MatchStepCounts` |
| JaroMetrics.MatchRec | utils.py:68-76 | after any number of outer iterations the counter `matches` equals the number of marked positions in `matches1` and in `matches2`, only processed positions of `a` are marked, and `matches` <= min(len1, len2) |
| JaroMetrics.MatchStepCounts | utils.py:72-76 | one outer iteration marks one position on each side or none, and keeps the counter equal to both mark counts |
| JaroMetrics.Transpositions | utils.py:81-89 | the transposition count is at most the number of matches |
| JaroMetrics.JaroFormula | utils.py:91-95 | `(m/len1 + m/len2 + (m - t // 2)/m) / 3` with floor division on t; its range is `JaroFormulaBounds` |
| JaroMetrics.JaroFormulaBounds | utils.py:91-95 | with 0 < matches <= min(len1, len2) and transpositions <= matches, the formula with `transpositions // 2` lies in (0, 1] |
| JaroMetrics.RatioBounds | utils.py:92-94 | each ratio of the formula lies in (0, 1] and no division by zero occurs |
| JaroMetrics.Jaro | utils.py:56-97 | Jaro similarity lies in [0, 1], is 1.0 for two empty strings, and is 0.0 exactly when one string is non-empty and nothing matches |
| JaroMetrics.JaroSimilarity | utils.py:56-97 | the method returns the specification's Jaro value: 1.0 for two empty strings, 0.0 without matches, the formula otherwise |
| JaroMetrics.MatchCharacter | utils.py:69-76 | one outer iteration over the flag arrays: the flags and the counter afterwards are those of one specification step |
| JaroMetrics.MarkMatches | utils.py:63-76 | the matching loop with `break` leaves `matches1`, `matches2` and `matches` equal to the specification's matching pass |
| JaroMetrics.MatchStepFound | utils.py:70-76 | the window the loop scans and the index it stops at are those of one specification step |
| JaroMetrics.FindFree | utils.py:72-76 | the inner `for` with `break` returns the first unmatched position of `b` in the window whose character equals a[i], or None |
| JaroMetrics.CountTranspositions | utils.py:81-89 | the transposition loop, whose scan index `k` always finds a matched position of `b` below len2, returns the specification's transposition count |
| JaroMetrics.CommonPrefixFrom | utils.py:106-110 | the prefix loop stops at the first differing position or at the limit, with all earlier characters equal |
| JaroMetrics.PrefixLength | utils.py:104-110 | `prefix_length` <= min(4, len a, len b), the first `prefix_length` characters agree, and the next differs unless the cap is reached |
| JaroMetrics.WinklerFormula | utils.py:112 | the Winkler adjustment of j in [0, 1] is between j and 1, equals j for prefix 0 and is above j for a positive prefix when j < 1 |
| JaroMetrics.WinklerBonus | utils.py:112 | `prefix_length * 0.1 * (1 - jaro)`; its range is `WinklerBonusBounds` |
| JaroMetrics.WinklerBonusBounds | utils.py:112 | the bonus `prefix_length * 0.1 * (1 - jaro)` lies in [0, 1 - jaro] and is positive for a positive prefix when jaro < 1 |
| JaroMetrics.JaroWinkler | utils.py:100-114 | Jaro-Winkler is at least the Jaro value, at most 1, and equal to the Jaro value when there is no common prefix |
| JaroMetrics.JaroWinklerSimilarity | utils.py:100-114 | the method with its prefix loop returns the specification's Jaro-Winkler value |
| JaroMetrics.MatchPrefixStep | utils.py:69-76 | the matching pass over one more character of `a` is one more matching step |
| JaroMetrics.NoMatchWhenShort | utils.py:63-72 | when the longer string has at most one character, `match_distance` is -1 and nothing is ever matched |
| JaroMetrics.JaroZeroCases | utils.py:60-79 | an empty string against a non-empty one, or a longer string of length 1, gives 0.0 |
| JaroMetrics.SingleCharacterQuirk | utils.py:63-79 | "a" against "a" gives 0.0 under Jaro and 0.1 under Jaro-Winkler |
| JaroMetrics.MatchSelf | utils.py:68-76 | matching a string of length at least 2 with itself marks exactly the processed positions on both sides |
| JaroMetrics.MatchStepSelf | utils.py:69-76 | one step of self-matching marks the next position on both sides |
| JaroMetrics.FirstFreeSelf | utils.py:72-76 | in self-matching the first free equal character of the window is the character's own position |
| JaroMetrics.MatchedAll | utils.py:83-84 | with every flag set, the matched characters are the string itself |
| JaroMetrics.MismatchesSelf | utils.py:87-88 | a string has no mismatches with itself |
| JaroMetrics.MatchAllSelf | utils.py:65-89 | a string of length at least 2 matches itself fully with no transpositions |
| JaroMetrics.JaroSelf | utils.py:56-114 | a string of length at least 2 has Jaro and Jaro-Winkler similarity 1.0 with itself |
| JaroMetrics.SwappedPairMatches | utils.py:68-76 | in wxyz against xwyz every character is matched, the swapped pair across the diagonal |
| JaroMetrics.SwappedPairTranspositions | utils.py:81-89 | the swapped pair gives two transpositions |
| JaroMetrics.SwappedPairMismatches | utils.py:87-88 | wxyz and xwyz differ at exactly two positions |
| JaroMetrics.MatchedMark | utils.py:73-75 | marking an unmatched position adds exactly its character to the multiset of matched characters |
| JaroMetrics.MatchStepBalanced | utils.py:72-76 | one outer iteration marks equal characters on the two sides, so the matched characters of `a` and of `b` keep equal multisets |
| JaroMetrics.MatchBalanced | utils.py:68-76 | after the matching pass the matched characters of `a` and those of `b`, read in order, are the same multiset |
| JaroMetrics.FewMismatchesEqual | utils.py:81-89 | two matched sequences with the same multiset of characters cannot differ at exactly one position, so at most one mismatch means none |
| JaroMetrics.JaroFormulaOne | utils.py:91-95 | the formula reaches 1 only when every character of both strings is matched and `transpositions // 2` is 0 |
| JaroMetrics.FullMatchEqual | utils.py:65-89 | when every position of both strings is matched and there is at most one transposition, the strings are equal |
| JaroMetrics.JaroOne | utils.py:56-97 | Jaro similarity 1.0 means the two strings are equal |
| JaroMetrics.WinklerOne | utils.py:112 | the Winkler adjustment with prefix at most 4 reaches 1 only when the Jaro value is already 1 |
| JaroMetrics.JaroWinklerOne | utils.py:100-114 | Jaro-Winkler similarity 1.0 means the two strings are equal |
| JaroMetrics.TranspositionExample | utils.py:91-95 | wxyz against xwyz ("abcd" against "bacd") scores 11/12, because `2 // 2` is one transposition |
| Adapter.EditDistance | utils.py:127-128 | the raw distance of an edit metric lies between the length difference and the longer length |
| Adapter.Similarity | utils.py:129 | a similarity lies in [0, 1], and Jaro-Winkler is never below Jaro |
| Adapter.Distance | utils.py:126-130 | the adapted distance is the raw edit distance for the two edit metrics and 1 - similarity, within [0, 1], for the two similarities; it is never negative |
| Adapter.Lookup | utils.py:117-124 | a name resolves exactly when it is in one of the two tables; `distance_functions` names give edit metrics; any other name fails with that name |
| Adapter.ComputeDistance | utils.py:126-130 | `correct_word` is returned unchanged with a non-negative distance; `distance_functions` is consulted first; an unknown name fails |
| Adapter.MetricNames | utils.py:117-124 | each of the four names selects its metric, the tables share no name, and the lookup is case-sensitive |
| Adapter.EditDistanceLowerBound | utils.py:126-128 | under the edit metrics the distance is at least the length difference and is 0 exactly for equal words |
| Adapter.DistanceZero | utils.py:126-130 | under every metric a distance of 0 means the words are equal; equal words are at distance 0 under the edit metrics, and under the similarities unless they have one character |
| SpellChecker.LengthFilter | utils.py:139-143 | the filter keeps at most the dictionary's words; which words it keeps is `LengthFilterMembers` |
| SpellChecker.LengthFilterMembers | utils.py:139-143 | a word survives the filter exactly when it is in the dictionary and its length is within `max_distance` of the query's |
| SpellChecker.Score | utils.py:139-147 | scoring keeps one entry per candidate; the entries' words and distances are stated by `ScoreAll` and `EligibleIsPipeline` |
| SpellChecker.ScoreAll | utils.py:139-147 | scoring fails exactly when there is a candidate and the metric name is unknown, and otherwise pairs each candidate with its distance, in submission order |
| SpellChecker.Threshold | utils.py:144-149 | the threshold keeps at most the scored entries; which entries it keeps is stated by `EligibleIsPipeline`, `EligibleSound` and `EligibleComplete` |
| SpellChecker.Insert | utils.py:150 | insertion adds one element; order, contents and stability are `InsertSorted`, `InsertPermutation` and `InsertStable` |
| SpellChecker.SortByDistance | utils.py:150 | the sort keeps the length; order, permutation and stability are `SortSorted`, `SortPermutation` and `SortStable` |
| SpellChecker.SliceLength | utils.py:150 | the slice `[:k]` keeps min(k, n) elements for k >= 0 and max(0, n + k) for k < 0 |
| SpellChecker.Take | utils.py:150 | the slice `[:k]` is a prefix of the list, of the length Python's slice gives |
| SpellChecker.Words | utils.py:150 | the final comprehension keeps one word per entry, in order |
| SpellChecker.Suggest | utils.py:139-150 | the reference suggestion list: the words of the first k entries of the stably sorted eligible list; its properties are the `Suggest*` lemmas |
| SpellChecker.SpellCheck | utils.py:132-150 | the search fails exactly when the metric name is unknown and some word passes the length filter; otherwise it returns the reference suggestion list, or the empty list for an unknown name |
| SpellChecker.Eligible | utils.py:139-149 | at most the dictionary's words are eligible; which ones is `EligibleSound` and `EligibleComplete` |
| SpellChecker.EligibleSound | utils.py:139-149 | an eligible entry is a dictionary word within both limits, paired with its adapted distance |
| SpellChecker.EligibleComplete | utils.py:139-149 | every dictionary word within both limits is eligible |
| SpellChecker.EligibleIsPipeline | utils.py:139-149 | the filter, the scoring and the threshold select exactly the eligible entries, in dictionary order |
| SpellChecker.InsertAtLeast | utils.py:150 | insertion keeps a common lower bound of the distances |
| SpellChecker.InsertSorted | utils.py:150 | insertion into an ascending list keeps it ascending |
| SpellChecker.InsertPermutation | utils.py:150 | insertion adds exactly the inserted entry |
| SpellChecker.InsertWords | utils.py:150 | insertion adds exactly the inserted entry's word |
| SpellChecker.SortSorted | utils.py:150 | the sort is ascending by distance |
| SpellChecker.SortPermutation | utils.py:150 | the sort is a permutation of the entries |
| SpellChecker.SortWords | utils.py:150 | the sort is a permutation of the words |
| SpellChecker.WithDistance | utils.py:150 | selecting the entries of one distance keeps at most all entries |
| SpellChecker.InsertStable | utils.py:150 | insertion puts the new entry before every entry of equal distance |
| SpellChecker.SortStable | utils.py:150 | the sort is stable: the entries of each distance keep their order |
| SpellChecker.SuggestAt | utils.py:150 | the i-th suggestion is the word of the i-th sorted eligible entry |
| SpellChecker.SortedEntry | utils.py:139-150 | an entry of the sorted eligible list is a dictionary word within both limits, carrying its adapted distance |
| SpellChecker.SuggestSound | utils.py:139-150 | every suggestion is a dictionary word within `max_distance` characters of the query's length and within `max_distance` under the metric |
| SpellChecker.SuggestLength | utils.py:150 | at most `max_suggestions` words when it is non-negative, never more than the eligible words, and all of them when they fit |
| SpellChecker.SuggestOrdered | utils.py:150 | the suggestions are ascending by distance |
| SpellChecker.SuggestStable | utils.py:139-150 | the suggestions are a prefix of the stably sorted eligible words, and equal distances keep dictionary order |
| SpellChecker.WordsTake | utils.py:150 | the words of a slice are a prefix of the words of the whole |
| SpellChecker.SuggestTop | utils.py:144-150 | an eligible word that is not suggested is at least as far from the query as every suggestion |
| SpellChecker.SuggestAll | utils.py:139-150 | with at most `max_suggestions` eligible words, exactly the eligible words are returned |
| SpellChecker.LengthFilterRedundantForEditMetrics | utils.py:142-148 | for the two edit metrics the length filter never drops a word the threshold would keep |
| SpellChecker.ThresholdRedundantForSimilarities | utils.py:142-148 | for the two similarities with `max_distance` >= 1 the threshold keeps every candidate and only the length filter selects |
| SpellChecker.UnknownMetricWithoutCandidates | utils.py:139-147 | an unknown name with no candidate gives an empty list; with a candidate it fails |
| SpellChecker.SwapExample | utils.py:50-51 | under OSA with `max_distance` 1 a two-letter query suggests itself, then its swapped form |
| SpellChecker.SwapExampleLevenshtein | utils.py:20-26 | under Levenshtein the swapped form is at distance 2 and only the exact match is suggested |

## Left out

- utils.py:1-7, the NLTK download and the global `DICTIONARY` set: I/O and an external library. The dictionary is a parameter, a sequence in its iteration order, so the order of a Python `set` is taken as given.
- The `ThreadPoolExecutor` of utils.py:138-149: concurrency only. The results are read back in submission order, so scoring is a sequential map (`SpellChecker.ScoreAll`).
- IEEE-754 rounding in utils.py:91-95, 112 and 130, including the inexact `0.1`: the model uses exact reals, so comparisons at utils.py:148 right at the boundary may differ from the floating-point program.
- The `precomputed_lengths` dictionary of utils.py:135: a cache that maps each word to its own length. The filter uses the length directly, which gives the same value.
- app.py, the user interface: widgets, lowercasing, the exact-match message and rendering.
- JaroMetrics.MarkMatches: the body of the outer loop of utils.py:69-76 is a helper method `MatchCharacter`, and its inner `for`/`break` is a helper method `FindFree` that returns the index it stops at. `MatchCharacter` does the marking. The scanned positions and the marks are the source's.
- JaroMetrics.JaroSimilarity: the final formula is evaluated through the function `JaroFormula`. It is the same arithmetic expression as utils.py:91-95.
- JaroMetrics.Jaro: symmetry of the Jaro and Jaro-Winkler similarities in their two arguments is not proved. The greedy matching pass scans `a` and takes the first free position of `b`, so a proof would have to relate two different matchings.
- SpellChecker.SpellCheck: `max_distance` is an integer, so fractional thresholds (for example 0.3 under a similarity metric, where every distance lies in [0, 1]) are not modelled.
- SpellChecker.SpellCheck: a function, as the source's comprehensions, `sorted` and slice are; its contract is stated through the reference definitions `Eligible` and `Suggest`.
