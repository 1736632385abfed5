/**
 * The adapter `compute_distance` of utils.py and its two lookup tables.
 *
 * The tables map a metric's name to one of four metrics; the two edit
 * distances are used as they are, the two similarities are turned into a
 * "lower is better" distance `1 - similarity`. A name found in neither
 * table is the source's `KeyError`, modelled as an error result.
 */
module Adapter {
  import opened Basics
  import EditMetrics
  import JaroMetrics

  /** The four metrics the tables can name. */
  datatype Metric = Levenshtein | DamerauLevenshtein | JaroSimilarity | JaroWinkler

  /** The failure of `compute_distance`: the lookup of an unknown name. */
  datatype Error = UnsupportedMetric(name: string)

  /** A suggestion as `compute_distance` returns it: the dictionary word and its distance. */
  datatype Scored = Scored(word: string, distance: real)

  /** `distance_functions`: the metrics that are distances already. */
  const DistanceFunctions: map<string, Metric> :=
    map["levenshtein" := Levenshtein, "damerau_levenshtein" := DamerauLevenshtein]

  /** `similarity_functions`: the metrics that are similarities in [0, 1]. */
  const SimilarityFunctions: map<string, Metric> :=
    map["jaro_similarity" := JaroSimilarity, "jaro_winkler" := JaroWinkler]

  predicate IsEditMetric(m: Metric) { m == Levenshtein || m == DamerauLevenshtein }

  /** The edit distance of an edit metric, as the raw integer. */
  function EditDistance(m: Metric, word: string, correctWord: string): (d: nat)
    requires IsEditMetric(m)
    ensures Abs(|word| - |correctWord|) <= d <= Max(|word|, |correctWord|)
  {
    if m == Levenshtein then EditMetrics.Levenshtein(word, correctWord)
    else EditMetrics.Damerau(word, correctWord)
  }

  /** The similarity of a similarity metric. */
  function Similarity(m: Metric, word: string, correctWord: string): (r: real)
    requires !IsEditMetric(m)
    ensures 0.0 <= r <= 1.0
    ensures m == JaroWinkler ==> JaroMetrics.Jaro(word, correctWord) <= r
  {
    if m == JaroSimilarity then JaroMetrics.Jaro(word, correctWord)
    else JaroMetrics.JaroWinkler(word, correctWord)
  }

  /**
   * The adapted distance of a metric: the edit distance as it is, or one
   * minus the similarity. It is never negative, is 0 for equal words under
   * the edit metrics, and is at most 1 under the similarity metrics.
   */
  function Distance(m: Metric, word: string, correctWord: string): (d: real)
    ensures 0.0 <= d
    ensures IsEditMetric(m) ==> d == EditDistance(m, word, correctWord) as real
    ensures !IsEditMetric(m) ==> d == 1.0 - Similarity(m, word, correctWord) && d <= 1.0
  {
    if IsEditMetric(m) then EditDistance(m, word, correctWord) as real
    else 1.0 - Similarity(m, word, correctWord)
  }

  /**
   * The table lookup: a name in `distance_functions` gives an edit metric,
   * a name in `similarity_functions` a similarity metric, and any other
   * name fails.
   */
  function Lookup(name: string): (r: Result<Metric, Error>)
    ensures r.Ok? <==> name in DistanceFunctions || name in SimilarityFunctions
    ensures r.Ok? ==> (IsEditMetric(r.value) <==> name in DistanceFunctions)
    ensures r.Err? ==> r.error == UnsupportedMetric(name)
  {
    if name in DistanceFunctions then Ok(DistanceFunctions[name])
    else if name in SimilarityFunctions then Ok(SimilarityFunctions[name])
    else Err(UnsupportedMetric(name))
  }

  /**
   * `compute_distance`: returns `correct_word` unchanged with its distance
   * to `word` under the named metric, or fails on an unknown name.
   */
  function ComputeDistance(word: string, correctWord: string, name: string): (r: Result<Scored, Error>)
    ensures r.Ok? <==> name in DistanceFunctions || name in SimilarityFunctions
    ensures r.Err? ==> r.error == UnsupportedMetric(name)
    ensures r.Ok? ==> r.value.word == correctWord && 0.0 <= r.value.distance
    ensures name in DistanceFunctions ==>
      r == Ok(Scored(correctWord, EditDistance(DistanceFunctions[name], word, correctWord) as real))
    ensures name in SimilarityFunctions && name !in DistanceFunctions ==>
      r == Ok(Scored(correctWord, 1.0 - Similarity(SimilarityFunctions[name], word, correctWord)))
  {
    match Lookup(name)
    case Err(e) => Err(e)
    case Ok(m) => Ok(Scored(correctWord, Distance(m, word, correctWord)))
  }

  /** Each of the four source names selects its metric; the two tables share no name. */
  lemma MetricNames()
    ensures Lookup("levenshtein") == Ok(Levenshtein)
    ensures Lookup("damerau_levenshtein") == Ok(DamerauLevenshtein)
    ensures Lookup("jaro_similarity") == Ok(JaroSimilarity)
    ensures Lookup("jaro_winkler") == Ok(JaroWinkler)
    ensures forall name :: name in DistanceFunctions ==> name !in SimilarityFunctions
    ensures Lookup("Levenshtein").Err?
  {
  }

  /**
   * Under the two edit metrics the adapted distance is at least the
   * difference of the lengths, and 0 exactly for equal words.
   */
  lemma EditDistanceLowerBound(m: Metric, word: string, correctWord: string)
    requires IsEditMetric(m)
    ensures Abs(|word| - |correctWord|) as real <= Distance(m, word, correctWord)
    ensures Distance(m, word, correctWord) == 0.0 <==> word == correctWord
  {
    if m == Levenshtein {
      EditMetrics.LevenshteinZeroIffEqual(word, correctWord);
    } else {
      EditMetrics.DamerauZeroIffEqual(word, correctWord);
    }
  }

  /**
   * Under every metric an adapted distance of 0 means the two words are
   * equal. Conversely equal words are at distance 0, except a single
   * character under the similarity metrics, where the matching window of
   * the Jaro similarity is empty.
   */
  lemma DistanceZero(m: Metric, word: string, correctWord: string)
    ensures Distance(m, word, correctWord) == 0.0 ==> word == correctWord
    ensures word == correctWord && (IsEditMetric(m) || |word| != 1) ==> Distance(m, word, correctWord) == 0.0
  {
    if IsEditMetric(m) {
      EditDistanceLowerBound(m, word, correctWord);
    } else {
      if Distance(m, word, correctWord) == 0.0 {
        if m == JaroSimilarity {
          JaroMetrics.JaroOne(word, correctWord);
        } else {
          JaroMetrics.JaroWinklerOne(word, correctWord);
        }
      }
      if word == correctWord && 2 <= |word| {
        JaroMetrics.JaroSelf(word);
      }
    }
  }
}
