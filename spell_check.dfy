/**
 * The search `spell_check` of utils.py.
 *
 * A query word is compared with the words of a dictionary, taken in the
 * dictionary's iteration order: words whose length differs from the query's
 * by more than `max_distance` are dropped early, the rest are scored with
 * `compute_distance`, those within `max_distance` are kept, sorted stably by
 * distance, and the first `max_suggestions` of them are returned.
 *
 * The source scores the candidates in a thread pool but reads the results
 * back in submission order, so the scoring is a sequential map here.
 */
module SpellChecker {
  import opened Basics
  import opened Adapter

  // ---------------------------------------------------------------------
  // The pipeline as the source writes it

  /** The early length filter: the dictionary words within `maxDistance` characters of the query's length. */
  function LengthFilter(word: string, dictionary: seq<string>, maxDistance: int): (c: seq<string>)
    ensures |c| <= |dictionary|
  {
    if |dictionary| == 0 then []
    else
      (if Abs(|word| - |dictionary[0]|) <= maxDistance then [dictionary[0]] else [])
      + LengthFilter(word, dictionary[1..], maxDistance)
  }

  /** A word passes the length filter exactly when it is in the dictionary and close enough in length. */
  lemma {:induction false} LengthFilterMembers(word: string, dictionary: seq<string>, maxDistance: int, w: string)
    ensures w in LengthFilter(word, dictionary, maxDistance) <==> w in dictionary && Abs(|word| - |w|) <= maxDistance
  {
    if |dictionary| > 0 {
      LengthFilterMembers(word, dictionary[1..], maxDistance, w);
      assert dictionary == [dictionary[0]] + dictionary[1..];
    }
  }

  /** Each candidate paired with its distance under metric m, in order. */
  function Score(m: Metric, word: string, candidates: seq<string>): (r: seq<Scored>)
    ensures |r| == |candidates|
  {
    if |candidates| == 0 then []
    else [Scored(candidates[0], Distance(m, word, candidates[0]))] + Score(m, word, candidates[1..])
  }

  /**
   * The scoring step: `compute_distance` for every candidate, in submission
   * order. It fails exactly when there is a candidate and the metric's name
   * is unknown; otherwise it pairs each candidate with its distance.
   */
  function ScoreAll(word: string, candidates: seq<string>, name: string): (r: Result<seq<Scored>, Error>)
    ensures r.Err? <==> |candidates| > 0 && Lookup(name).Err?
    ensures r.Err? ==> r.error == UnsupportedMetric(name)
    ensures Lookup(name).Ok? ==> r == Ok(Score(Lookup(name).value, word, candidates))
  {
    if |candidates| == 0 then Ok([])
    else
      match ComputeDistance(word, candidates[0], name)
      case Err(e) => Err(e)
      case Ok(first) =>
        match ScoreAll(word, candidates[1..], name)
        case Err(e) => Err(e)
        case Ok(rest) => Ok([first] + rest)
  }

  /** The threshold: the scored words whose distance is at most `maxDistance`, in order. */
  function Threshold(scored: seq<Scored>, maxDistance: int): (r: seq<Scored>)
    ensures |r| <= |scored|
  {
    if |scored| == 0 then []
    else
      (if scored[0].distance <= maxDistance as real then [scored[0]] else [])
      + Threshold(scored[1..], maxDistance)
  }

  /** Ascending by distance. */
  ghost predicate SortedByDistance(s: seq<Scored>)
  {
    forall i, j :: 0 <= i < j < |s| ==> s[i].distance <= s[j].distance
  }

  /** Inserts x in front of the first element that is not closer than x. */
  function Insert(x: Scored, t: seq<Scored>): (r: seq<Scored>)
    ensures |r| == |t| + 1
  {
    if |t| == 0 || x.distance <= t[0].distance then [x] + t
    else [t[0]] + Insert(x, t[1..])
  }

  /**
   * Python's `sorted` with the distance as key: an insertion sort that puts
   * each element before the later elements of equal distance, hence stable.
   */
  function SortByDistance(s: seq<Scored>): (r: seq<Scored>)
    ensures |r| == |s|
  {
    if |s| == 0 then [] else Insert(s[0], SortByDistance(s[1..]))
  }

  /** The number of elements Python's slice `[:k]` keeps of a list of length n. */
  function SliceLength(n: nat, k: int): (c: nat)
    ensures c <= n
    ensures k >= 0 ==> c == Min(k, n)
    ensures k < 0 ==> c == Max(0, n + k)
  {
    if k >= 0 then (if k <= n then k else n)
    else if n + k >= 0 then n + k else 0
  }

  /** Python's slice `s[:k]`, which for a negative k drops the last -k elements. */
  function Take<T>(s: seq<T>, k: int): (r: seq<T>)
    ensures |r| == SliceLength(|s|, k) && r <= s
  {
    s[..SliceLength(|s|, k)]
  }

  /** The words of scored suggestions, in order. */
  function Words(s: seq<Scored>): (w: seq<string>)
    ensures |w| == |s|
  {
    seq(|s|, i requires 0 <= i < |s| => s[i].word)
  }

  /**
   * `spell_check`: the length filter, the scoring (which fails on an unknown
   * metric name as soon as one candidate is scored), the threshold, the
   * stable sort by distance and the slice `[:max_suggestions]`.
   */
  function SpellCheck(word: string, dictionary: seq<string>, name: string, maxSuggestions: int, maxDistance: int)
    : (r: Result<seq<string>, Error>)
    ensures r.Err? <==> Lookup(name).Err? && |LengthFilter(word, dictionary, maxDistance)| > 0
    ensures r.Err? ==> r.error == UnsupportedMetric(name)
    ensures Lookup(name).Err? && |LengthFilter(word, dictionary, maxDistance)| == 0 ==> r == Ok([])
    ensures Lookup(name).Ok? ==>
      r == Ok(Suggest(word, dictionary, Lookup(name).value, maxSuggestions, maxDistance))
  {
    var candidates := LengthFilter(word, dictionary, maxDistance);
    match ScoreAll(word, candidates, name)
    case Err(e) => Err(e)
    case Ok(scored) =>
      if Lookup(name).Ok? then
        EligibleIsPipeline(word, dictionary, Lookup(name).value, maxDistance);
        Ok(Words(Take(SortByDistance(Threshold(scored, maxDistance)), maxSuggestions)))
      else
        assert |Threshold(scored, maxDistance)| == 0;
        assert Words(Take(SortByDistance(Threshold(scored, maxDistance)), maxSuggestions)) == [];
        Ok(Words(Take(SortByDistance(Threshold(scored, maxDistance)), maxSuggestions)))
  }

  // ---------------------------------------------------------------------
  // A reference definition: one pass over the dictionary

  /**
   * The eligible words of the dictionary, each with its distance, in
   * dictionary order: those within `maxDistance` characters of the query's
   * length and within `maxDistance` of it under metric m.
   */
  function Eligible(word: string, dictionary: seq<string>, m: Metric, maxDistance: int): (r: seq<Scored>)
    ensures |r| <= |dictionary|
  {
    if |dictionary| == 0 then []
    else
      var w := dictionary[0];
      var d := Distance(m, word, w);
      (if Abs(|word| - |w|) <= maxDistance && d <= maxDistance as real then [Scored(w, d)] else [])
      + Eligible(word, dictionary[1..], m, maxDistance)
  }

  /**
   * An eligible entry is a dictionary word within both limits, paired with
   * its distance.
   */
  lemma {:induction false} EligibleSound(word: string, dictionary: seq<string>, m: Metric, maxDistance: int, e: Scored)
    requires e in Eligible(word, dictionary, m, maxDistance)
    ensures e.word in dictionary && Abs(|word| - |e.word|) <= maxDistance
    ensures e.distance == Distance(m, word, e.word) && e.distance <= maxDistance as real
  {
    var w := dictionary[0];
    var d := Distance(m, word, w);
    if e != Scored(w, d) || !(Abs(|word| - |w|) <= maxDistance && d <= maxDistance as real) {
      EligibleSound(word, dictionary[1..], m, maxDistance, e);
    }
  }

  /** Every dictionary word within both limits is eligible. */
  lemma {:induction false} EligibleComplete(word: string, dictionary: seq<string>, m: Metric, maxDistance: int, w: string)
    requires w in dictionary && Abs(|word| - |w|) <= maxDistance && Distance(m, word, w) <= maxDistance as real
    ensures Scored(w, Distance(m, word, w)) in Eligible(word, dictionary, m, maxDistance)
  {
    if dictionary[0] != w {
      EligibleComplete(word, dictionary[1..], m, maxDistance, w);
    }
  }

  /** The suggestions for a known metric: the first `k` eligible words after the stable sort. */
  function Suggest(word: string, dictionary: seq<string>, m: Metric, k: int, maxDistance: int): seq<string>
  {
    Words(Take(SortByDistance(Eligible(word, dictionary, m, maxDistance)), k))
  }

  /** The source's filter, scoring and threshold select the eligible words, in dictionary order. */
  lemma {:induction false} EligibleIsPipeline(word: string, dictionary: seq<string>, m: Metric, maxDistance: int)
    ensures Threshold(Score(m, word, LengthFilter(word, dictionary, maxDistance)), maxDistance)
         == Eligible(word, dictionary, m, maxDistance)
  {
    if |dictionary| > 0 {
      EligibleIsPipeline(word, dictionary[1..], m, maxDistance);
      var w := dictionary[0];
      var tail := LengthFilter(word, dictionary[1..], maxDistance);
      if Abs(|word| - |w|) <= maxDistance {
        assert LengthFilter(word, dictionary, maxDistance) == [w] + tail;
        assert Score(m, word, [w] + tail) == [Scored(w, Distance(m, word, w))] + Score(m, word, tail);
        var scored := [Scored(w, Distance(m, word, w))] + Score(m, word, tail);
        assert scored[1..] == Score(m, word, tail);
      } else {
        assert LengthFilter(word, dictionary, maxDistance) == tail;
      }
    }
  }

  // ---------------------------------------------------------------------
  // The stable sort

  /** Every element is at least lo away. */
  ghost predicate AllAtLeast(s: seq<Scored>, lo: real)
  {
    forall i :: 0 <= i < |s| ==> lo <= s[i].distance
  }

  /** Insertion keeps a lower bound that x and all of t respect. */
  lemma {:induction false} InsertAtLeast(x: Scored, t: seq<Scored>, lo: real)
    requires lo <= x.distance && AllAtLeast(t, lo)
    ensures AllAtLeast(Insert(x, t), lo)
  {
    if |t| > 0 && x.distance > t[0].distance {
      InsertAtLeast(x, t[1..], lo);
    }
  }

  /** Insertion into a sorted sequence keeps it sorted. */
  lemma {:induction false} InsertSorted(x: Scored, t: seq<Scored>)
    requires SortedByDistance(t)
    ensures SortedByDistance(Insert(x, t))
  {
    if |t| > 0 && x.distance > t[0].distance {
      InsertSorted(x, t[1..]);
      InsertAtLeast(x, t[1..], t[0].distance);
    }
  }

  /** Insertion adds exactly the inserted element. */
  lemma {:induction false} InsertPermutation(x: Scored, t: seq<Scored>)
    ensures multiset(Insert(x, t)) == multiset(t) + multiset{x}
  {
    if |t| > 0 && x.distance > t[0].distance {
      InsertPermutation(x, t[1..]);
      assert t == [t[0]] + t[1..];
    }
  }

  /** Insertion adds exactly the inserted element's word to the words. */
  lemma {:induction false} InsertWords(x: Scored, t: seq<Scored>)
    ensures multiset(Words(Insert(x, t))) == multiset(Words(t)) + multiset{x.word}
  {
    if |t| == 0 || x.distance <= t[0].distance {
      WordsCons(x, t);
    } else {
      var rest := Insert(x, t[1..]);
      InsertWords(x, t[1..]);
      WordsCons(t[0], rest);
      WordsCons(t[0], t[1..]);
      assert t == [t[0]] + t[1..];
      calc {
        multiset(Words(Insert(x, t)));
        multiset([t[0].word] + Words(rest));
        multiset{t[0].word} + multiset(Words(rest));
        multiset{t[0].word} + multiset(Words(t[1..])) + multiset{x.word};
        multiset([t[0].word] + Words(t[1..])) + multiset{x.word};
      }
    }
  }

  /** The sort orders by distance. */
  lemma {:induction false} SortSorted(s: seq<Scored>)
    ensures SortedByDistance(SortByDistance(s))
  {
    if |s| > 0 {
      SortSorted(s[1..]);
      InsertSorted(s[0], SortByDistance(s[1..]));
    }
  }

  /** The sort is a permutation of the entries. */
  lemma {:induction false} SortPermutation(s: seq<Scored>)
    ensures multiset(SortByDistance(s)) == multiset(s)
  {
    if |s| > 0 {
      SortPermutation(s[1..]);
      InsertPermutation(s[0], SortByDistance(s[1..]));
      assert s == [s[0]] + s[1..];
    }
  }

  /** The sort is a permutation of the words. */
  lemma {:induction false} SortWords(s: seq<Scored>)
    ensures multiset(Words(SortByDistance(s))) == multiset(Words(s))
  {
    if |s| > 0 {
      var rest := SortByDistance(s[1..]);
      SortWords(s[1..]);
      InsertWords(s[0], rest);
      assert s == [s[0]] + s[1..];
      WordsCons(s[0], s[1..]);
      calc {
        multiset(Words(SortByDistance(s)));
        multiset(Words(Insert(s[0], rest)));
        multiset(Words(s[1..])) + multiset{s[0].word};
        multiset([s[0].word] + Words(s[1..]));
      }
    }
  }

  /** The elements of distance d, in order. */
  function WithDistance(s: seq<Scored>, d: real): (r: seq<Scored>)
    ensures |r| <= |s|
  {
    if |s| == 0 then []
    else (if s[0].distance == d then [s[0]] else []) + WithDistance(s[1..], d)
  }

  /** Insertion puts x before every element of its own distance. */
  lemma {:induction false} InsertStable(x: Scored, t: seq<Scored>, d: real)
    ensures WithDistance(Insert(x, t), d) == (if x.distance == d then [x] else []) + WithDistance(t, d)
  {
    if |t| == 0 || x.distance <= t[0].distance {
      assert ([x] + t)[1..] == t;
    } else {
      var rest := Insert(x, t[1..]);
      var head := if t[0].distance == d then [t[0]] else [];
      InsertStable(x, t[1..], d);
      assert ([t[0]] + rest)[1..] == rest;
      assert WithDistance(Insert(x, t), d) == head + WithDistance(rest, d);
      assert WithDistance(t, d) == head + WithDistance(t[1..], d);
      assert x.distance == d ==> head == [];
    }
  }

  /** Stability: for every distance, the elements of that distance keep their order. */
  lemma {:induction false} SortStable(s: seq<Scored>, d: real)
    ensures WithDistance(SortByDistance(s), d) == WithDistance(s, d)
  {
    if |s| > 0 {
      SortStable(s[1..], d);
      InsertStable(s[0], SortByDistance(s[1..]), d);
    }
  }

  // ---------------------------------------------------------------------
  // What the suggestions promise

  /** The i-th suggestion is the word of the i-th entry of the sorted eligible list. */
  lemma SuggestAt(word: string, dictionary: seq<string>, m: Metric, k: int, maxDistance: int, i: nat)
    requires i < |Suggest(word, dictionary, m, k, maxDistance)|
    ensures var sorted := SortByDistance(Eligible(word, dictionary, m, maxDistance));
      i < |sorted| && Suggest(word, dictionary, m, k, maxDistance)[i] == sorted[i].word
  {
  }

  /** An entry of the sorted eligible list is an eligible entry. */
  lemma SortedEntry(word: string, dictionary: seq<string>, m: Metric, maxDistance: int, i: nat, w: string)
    requires i < |SortByDistance(Eligible(word, dictionary, m, maxDistance))|
    requires SortByDistance(Eligible(word, dictionary, m, maxDistance))[i].word == w
    ensures w in dictionary && Abs(|word| - |w|) <= maxDistance && Distance(m, word, w) <= maxDistance as real
    ensures SortByDistance(Eligible(word, dictionary, m, maxDistance))[i].distance == Distance(m, word, w)
  {
    var eligible := Eligible(word, dictionary, m, maxDistance);
    var sorted := SortByDistance(eligible);
    SortPermutation(eligible);
    assert sorted[i] in multiset(eligible);
    EligibleSound(word, dictionary, m, maxDistance, sorted[i]);
  }

  /**
   * Every suggestion comes from the dictionary, is within `maxDistance`
   * characters of the query's length and within `maxDistance` of the query
   * under the metric.
   */
  lemma SuggestSound(word: string, dictionary: seq<string>, m: Metric, k: int, maxDistance: int, w: string)
    requires w in Suggest(word, dictionary, m, k, maxDistance)
    ensures w in dictionary && Abs(|word| - |w|) <= maxDistance && Distance(m, word, w) <= maxDistance as real
  {
    var i := IndexOf(w, Suggest(word, dictionary, m, k, maxDistance));
    SuggestAt(word, dictionary, m, k, maxDistance, i);
    SortedEntry(word, dictionary, m, maxDistance, i, w);
  }

  /** A position at which an element of a sequence occurs. */
  lemma IndexOf<T>(x: T, s: seq<T>) returns (i: nat)
    requires x in s
    ensures i < |s| && s[i] == x
  {
    i :| 0 <= i < |s| && s[i] == x;
  }

  /** At most `k` suggestions when k >= 0, and never more than the eligible words. */
  lemma SuggestLength(word: string, dictionary: seq<string>, m: Metric, k: int, maxDistance: int)
    ensures var out := Suggest(word, dictionary, m, k, maxDistance);
      && (k >= 0 ==> |out| <= k)
      && |out| <= |Eligible(word, dictionary, m, maxDistance)|
      && (k >= |Eligible(word, dictionary, m, maxDistance)| ==> |out| == |Eligible(word, dictionary, m, maxDistance)|)
  {
  }

  /** The suggestions are in ascending order of distance. */
  lemma SuggestOrdered(word: string, dictionary: seq<string>, m: Metric, k: int, maxDistance: int, i: nat, j: nat)
    requires i < j < |Suggest(word, dictionary, m, k, maxDistance)|
    ensures var out := Suggest(word, dictionary, m, k, maxDistance);
      Distance(m, word, out[i]) <= Distance(m, word, out[j])
  {
    SuggestAt(word, dictionary, m, k, maxDistance, i);
    SuggestAt(word, dictionary, m, k, maxDistance, j);
    SortSorted(Eligible(word, dictionary, m, maxDistance));
    var out := Suggest(word, dictionary, m, k, maxDistance);
    SortedEntry(word, dictionary, m, maxDistance, i, out[i]);
    SortedEntry(word, dictionary, m, maxDistance, j, out[j]);
  }

  /**
   * Suggestions of equal distance keep the dictionary order: the suggestions
   * are a prefix of the words of the sorted eligible list, and in that list
   * the entries of any one distance appear as in the dictionary.
   */
  lemma SuggestStable(word: string, dictionary: seq<string>, m: Metric, k: int, maxDistance: int, d: real)
    ensures var eligible := Eligible(word, dictionary, m, maxDistance);
      && WithDistance(SortByDistance(eligible), d) == WithDistance(eligible, d)
      && Suggest(word, dictionary, m, k, maxDistance) <= Words(SortByDistance(eligible))
  {
    SortStable(Eligible(word, dictionary, m, maxDistance), d);
    WordsTake(SortByDistance(Eligible(word, dictionary, m, maxDistance)), k);
  }

  /** The words of a slice are a prefix of the words of the whole. */
  lemma WordsTake(s: seq<Scored>, k: int)
    ensures Words(Take(s, k)) <= Words(s)
  {
    var n := SliceLength(|s|, k);
    assert s == s[..n] + s[n..];
    WordsSplit(s[..n], s[n..]);
  }

  /**
   * Top-k: an eligible word that is not suggested is at least as far from
   * the query as every suggestion.
   */
  lemma SuggestTop(word: string, dictionary: seq<string>, m: Metric, k: int, maxDistance: int, w: string, v: string)
    requires w in dictionary && Abs(|word| - |w|) <= maxDistance && Distance(m, word, w) <= maxDistance as real
    requires w !in Suggest(word, dictionary, m, k, maxDistance)
    requires v in Suggest(word, dictionary, m, k, maxDistance)
    ensures Distance(m, word, v) <= Distance(m, word, w)
  {
    var eligible := Eligible(word, dictionary, m, maxDistance);
    var sorted := SortByDistance(eligible);
    var out := Suggest(word, dictionary, m, k, maxDistance);
    EligibleComplete(word, dictionary, m, maxDistance, w);
    SortPermutation(eligible);
    assert Scored(w, Distance(m, word, w)) in multiset(sorted);
    var j := IndexOf(Scored(w, Distance(m, word, w)), sorted);
    var i := IndexOf(v, out);
    SuggestAt(word, dictionary, m, k, maxDistance, i);
    assert i < j by {
      if j < |out| {
        SuggestAt(word, dictionary, m, k, maxDistance, j);
        assert false;
      }
    }
    SortSorted(eligible);
    assert sorted[i].distance <= sorted[j].distance;
    SortedEntry(word, dictionary, m, maxDistance, i, v);
  }

  /** With at most `k` eligible words, every one of them is suggested. */
  lemma SuggestAll(word: string, dictionary: seq<string>, m: Metric, k: int, maxDistance: int)
    requires |Eligible(word, dictionary, m, maxDistance)| <= k
    ensures multiset(Suggest(word, dictionary, m, k, maxDistance)) == multiset(Words(Eligible(word, dictionary, m, maxDistance)))
  {
    var eligible := Eligible(word, dictionary, m, maxDistance);
    var sorted := SortByDistance(eligible);
    SortWords(eligible);
    assert Take(sorted, k) == sorted;
  }

  /** The words of a sequence with a given first entry. */
  lemma WordsCons(x: Scored, t: seq<Scored>)
    ensures Words([x] + t) == [x.word] + Words(t)
  {
  }

  /** Words distributes over concatenation. */
  lemma WordsSplit(s: seq<Scored>, t: seq<Scored>)
    ensures Words(s + t) == Words(s) + Words(t)
  {
  }

  /**
   * For the two edit metrics the length filter is implied by the threshold:
   * the edit distance is at least the difference of the lengths, so the
   * filter never drops a word the threshold would keep.
   */
  lemma {:induction false} LengthFilterRedundantForEditMetrics(word: string, dictionary: seq<string>, m: Metric, maxDistance: int)
    requires IsEditMetric(m)
    ensures Eligible(word, dictionary, m, maxDistance) == ThresholdOnly(word, dictionary, m, maxDistance)
  {
    if |dictionary| > 0 {
      LengthFilterRedundantForEditMetrics(word, dictionary[1..], m, maxDistance);
      EditDistanceLowerBound(m, word, dictionary[0]);
    }
  }

  /** The threshold alone, without the length filter, in dictionary order. */
  function ThresholdOnly(word: string, dictionary: seq<string>, m: Metric, maxDistance: int): seq<Scored>
  {
    if |dictionary| == 0 then []
    else
      var d := Distance(m, word, dictionary[0]);
      (if d <= maxDistance as real then [Scored(dictionary[0], d)] else [])
      + ThresholdOnly(word, dictionary[1..], m, maxDistance)
  }

  /**
   * For the two similarity metrics every distance is at most 1, so with
   * `maxDistance` at least 1 (the default is 2) the threshold keeps every
   * candidate and only the length filter selects.
   */
  lemma {:induction false} ThresholdRedundantForSimilarities(word: string, dictionary: seq<string>, m: Metric, maxDistance: int)
    requires !IsEditMetric(m) && 1 <= maxDistance
    ensures Words(Eligible(word, dictionary, m, maxDistance)) == LengthFilter(word, dictionary, maxDistance)
  {
    if |dictionary| > 0 {
      ThresholdRedundantForSimilarities(word, dictionary[1..], m, maxDistance);
      var w := dictionary[0];
      var d := Distance(m, word, w);
      var rest := Eligible(word, dictionary[1..], m, maxDistance);
      if Abs(|word| - |w|) <= maxDistance {
        assert d <= maxDistance as real;
        assert Eligible(word, dictionary, m, maxDistance) == [Scored(w, d)] + rest;
        WordsCons(Scored(w, d), rest);
      } else {
        assert Eligible(word, dictionary, m, maxDistance) == rest;
      }
    }
  }

  // ---------------------------------------------------------------------
  // Examples

  /**
   * An unknown metric name does not fail when the length filter leaves no
   * candidate: nothing is scored, and the result is empty.
   */
  lemma UnknownMetricWithoutCandidates()
    ensures SpellCheck("zzzzzzzzzz", ["apple"], "cosine", 3, 2) == Ok([])
    ensures SpellCheck("zzzzz", ["apple"], "cosine", 3, 2) == Err(UnsupportedMetric("cosine"))
  {
    assert Lookup("cosine").Err?;
    assert LengthFilter("zzzzzzzzzz", ["apple"], 2) == [];
    assert LengthFilter("zzzzz", ["apple"], 2) == ["apple"];
  }

  /**
   * An adjacent swap is one edit under the restricted Damerau-Levenshtein
   * distance and two under Levenshtein: with `maxDistance` 1 and a
   * dictionary holding the query and its swapped form, only the first
   * suggests the swapped word, after the exact match.
   */
  lemma SwapExample(x: char, y: char)
    requires x != y
    ensures SpellCheck([x, y], [[y, x], [x, y]], "damerau_levenshtein", 3, 1) == Ok([[x, y], [y, x]])
  {
    var dl, query, swapped := DamerauLevenshtein, [x, y], [y, x];
    var dictionary := [swapped, query];
    MetricNames();
    EditMetrics.AdjacentSwap(x, y);
    assert Distance(dl, query, swapped) == 1.0;
    EditDistanceLowerBound(dl, query, query);
    var exact, swap := Scored(query, 0.0), Scored(swapped, 1.0);
    EligibleSingle(query, query, dl, 1);
    assert Eligible(query, [query], dl, 1) == [exact];
    assert dictionary[1..] == [query];
    assert Eligible(query, dictionary, dl, 1) == [swap, exact];
    assert [swap, exact][1..] == [exact];
    SortSingle(exact);
    assert SortByDistance([swap, exact]) == Insert(swap, [exact]);
    assert [exact][1..] == [];
    assert Insert(swap, []) == [swap];
    assert Insert(swap, [exact]) == [exact, swap];
    assert SortByDistance(Eligible(query, dictionary, dl, 1)) == [exact, swap];
    assert Take([exact, swap], 3) == [exact, swap];
    WordsCons(exact, [swap]);
    WordsCons(swap, []);
    assert Words([exact, swap]) == [query, swapped];
    assert Suggest(query, dictionary, dl, 3, 1) == [query, swapped];
    assert Lookup("damerau_levenshtein") == Ok(dl);
  }

  /** Under Levenshtein the same swap costs two edits, and only the exact match is suggested. */
  lemma SwapExampleLevenshtein(x: char, y: char)
    requires x != y
    ensures SpellCheck([x, y], [[y, x], [x, y]], "levenshtein", 3, 1) == Ok([[x, y]])
  {
    var lev, query, swapped := Levenshtein, [x, y], [y, x];
    var dictionary := [swapped, query];
    MetricNames();
    EditMetrics.AdjacentSwap(x, y);
    assert Distance(lev, query, swapped) == 2.0;
    var exact := Scored(query, 0.0);
    EligibleSingle(query, query, lev, 1);
    assert dictionary[1..] == [query];
    assert Eligible(query, dictionary, lev, 1) == [exact];
    SortSingle(exact);
    assert Take([exact], 3) == [exact];
    WordsCons(exact, []);
    assert Words([exact]) == [query];
    assert Suggest(query, dictionary, lev, 3, 1) == [query];
    assert Lookup("levenshtein") == Ok(lev);
  }

  /** A one-word dictionary holding the query itself. */
  lemma EligibleSingle(word: string, w: string, m: Metric, maxDistance: nat)
    requires IsEditMetric(m) && w == word
    ensures Eligible(word, [w], m, maxDistance) == [Scored(w, Distance(m, word, w))]
  {
    EditDistanceLowerBound(m, word, w);
    assert [w][1..] == [];
  }

  /** Sorting one element. */
  lemma SortSingle(x: Scored)
    ensures SortByDistance([x]) == [x]
  {
    assert [x][1..] == [];
  }
}
