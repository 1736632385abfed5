/**
 * The two similarity metrics of utils.py: Jaro similarity and Jaro-Winkler
 * similarity.
 *
 * The specification follows the source's greedy matching: the characters of
 * `a` are taken left to right, and each is matched with the first unmatched
 * equal character of `b` inside a window of half-width
 * `max(len1, len2) / 2 - 1` around its own position. The methods keep the
 * source's flag arrays and counters and are proved to return the values of
 * the specification functions.
 */
module JaroMetrics {
  import opened Basics

  /** Number of `true` flags among f[..n]. */
  function CountTo(f: seq<bool>, n: nat): (c: nat)
    requires n <= |f|
    ensures c <= n
  {
    if n == 0 then 0 else CountTo(f, n - 1) + (if f[n - 1] then 1 else 0)
  }

  /** The characters s[k] with k < n whose flag f[k] is set, in order. */
  function MatchedTo(s: string, f: seq<bool>, n: nat): (m: string)
    requires |s| == |f| && n <= |s|
    ensures |m| == CountTo(f, n)
  {
    if n == 0 then []
    else MatchedTo(s, f, n - 1) + (if f[n - 1] then [s[n - 1]] else [])
  }

  /** Number of positions at which two sequences of equal length differ. */
  function Mismatches(p: string, q: string): (t: nat)
    requires |p| == |q|
    ensures t <= |p|
  {
    if |p| == 0 then 0
    else Mismatches(p[..|p| - 1], q[..|q| - 1]) + (if p[|p| - 1] != q[|q| - 1] then 1 else 0)
  }

  /** The source's `match_distance`: -1 when the longer string has length at most 1. */
  function MatchDistance(len1: nat, len2: nat): int
  {
    Max(len1, len2) / 2 - 1
  }

  /**
   * The window half-width is never below -1, and is -1 exactly when the
   * longer string has at most one character.
   */
  lemma MatchDistanceNegative(len1: nat, len2: nat)
    ensures -1 <= MatchDistance(len1, len2)
    ensures MatchDistance(len1, len2) == -1 <==> Max(len1, len2) <= 1
  {
  }

  /**
   * The first position j' in [j, end) at which b[j'] is unmatched and equal
   * to a[i], or None when there is none.
   */
  function FirstFree(a: string, b: string, used: seq<bool>, i: nat, j: int, end: int): (r: Option<nat>)
    requires i < |a| && |used| == |b| && 0 <= j && end <= |b|
    ensures r.Some? ==> j <= r.value < end && !used[r.value] && a[i] == b[r.value]
    ensures r.Some? ==> forall k :: j <= k < r.value ==> used[k] || a[i] != b[k]
    ensures r.None? ==> forall k :: j <= k < end ==> used[k] || a[i] != b[k]
    decreases end - j
  {
    if j >= end then None
    else if !used[j] && a[i] == b[j] then Some(j)
    else FirstFree(a, b, used, i, j + 1, end)
  }

  /**
   * The state of the matching pass: the flags `matches1` and `matches2` and
   * the counter `matches`.
   */
  datatype Marks = Marks(inA: seq<bool>, inB: seq<bool>, count: nat)

  /**
   * One iteration of the matching loop: a[i] is matched with the first
   * unmatched equal character of `b` in its window, if there is one.
   */
  function MatchStep(a: string, b: string, prev: Marks, i: nat): Marks
    requires i < |a| && |prev.inA| == |a| && |prev.inB| == |b|
  {
    var md := MatchDistance(|a|, |b|);
    match FirstFree(a, b, prev.inB, i, Max(0, i - md), Min(|b|, i + md + 1))
    case None => prev
    case Some(j) => Marks(prev.inA[i := true], prev.inB[j := true], prev.count + 1)
  }

  /**
   * The matching pass after the characters a[..i] have been processed.
   * Only those characters can be marked in `a`, every marked position was
   * marked once (the counter equals the number of marks on either side),
   * so at most min(|a|, |b|) characters match.
   */
  function MatchRec(a: string, b: string, i: nat): (r: Marks)
    requires i <= |a|
    ensures |r.inA| == |a| && |r.inB| == |b|
    ensures r.count == CountTo(r.inA, |a|) == CountTo(r.inB, |b|)
    ensures forall k :: i <= k < |a| ==> !r.inA[k]
    ensures r.count <= i && r.count <= |b|
  {
    if i == 0 then
      var none1, none2 := seq(|a|, _ => false), seq(|b|, _ => false);
      CountNone(none1, |a|);
      CountNone(none2, |b|);
      Marks(none1, none2, 0)
    else
      var prev := MatchRec(a, b, i - 1);
      MatchStepCounts(a, b, prev, i - 1);
      MatchStep(a, b, prev, i - 1)
  }

  /**
   * A matching step marks a[i] and one unmatched position of `b` together,
   * or nothing: the counter keeps equal to the number of marks on each side.
   */
  lemma MatchStepCounts(a: string, b: string, prev: Marks, i: nat)
    requires i < |a| && |prev.inA| == |a| && |prev.inB| == |b|
    requires prev.count == CountTo(prev.inA, |a|) == CountTo(prev.inB, |b|)
    requires forall k :: i <= k < |a| ==> !prev.inA[k]
    ensures var next := MatchStep(a, b, prev, i);
      |next.inA| == |a| && |next.inB| == |b|
      && next.count == CountTo(next.inA, |a|) == CountTo(next.inB, |b|)
      && (forall k :: i < k < |a| ==> !next.inA[k])
      && next.count <= prev.count + 1
  {
    var md := MatchDistance(|a|, |b|);
    var found := FirstFree(a, b, prev.inB, i, Max(0, i - md), Min(|b|, i + md + 1));
    if found.Some? {
      CountMark(prev.inA, i, |a|);
      CountMark(prev.inB, found.value, |b|);
    }
  }

  /** The loop-state view of `MatchRec`: the flags and counter after i outer iterations. */
  function MatchPrefix(a: string, b: string, i: nat): Marks
    requires i <= |a|
  {
    MatchRec(a, b, i)
  }

  /**
   * Transpositions: the number of positions at which the matched characters
   * of `a` and of `b`, each read in order, differ. It is at most the number
   * of matches.
   */
  function Transpositions(a: string, b: string, inA: seq<bool>, inB: seq<bool>): (t: nat)
    requires |inA| == |a| && |inB| == |b|
    requires CountTo(inA, |a|) == CountTo(inB, |b|)
    ensures t <= CountTo(inA, |a|)
  {
    Mismatches(MatchedTo(a, inA, |a|), MatchedTo(b, inB, |b|))
  }

  /**
   * The Jaro formula for m > 0 matches and t transpositions, with the
   * source's floor division `t // 2`.
   */
  function JaroFormula(m: nat, t: nat, len1: nat, len2: nat): real
    requires 0 < m && 0 < len1 && 0 < len2
  {
    (m as real / len1 as real + m as real / len2 as real + (m - t / 2) as real / m as real) / 3.0
  }

  /** With at most min(len1, len2) matches and at most m transpositions, the formula lies in (0, 1]. */
  lemma JaroFormulaBounds(m: nat, t: nat, len1: nat, len2: nat)
    requires 0 < m <= len1 && m <= len2 && t <= m
    ensures 0.0 < JaroFormula(m, t, len1, len2) <= 1.0
  {
    RatioBounds(m, len1);
    RatioBounds(m, len2);
    RatioBounds(m - t / 2, m);
  }

  /** A nonzero real divided by itself is 1. */
  lemma DivSelf(x: real)
    requires x != 0.0
    ensures x / x == 1.0
  {
  }

  /** A ratio of naturals 0 < p <= q lies in (0, 1]. */
  lemma RatioBounds(p: int, q: int)
    requires 0 < p <= q
    ensures 0.0 < p as real / q as real <= 1.0
  {
    assert p as real / q as real * q as real == p as real;
  }

  /**
   * Jaro similarity: 1 for two empty strings, 0 when nothing matches, and
   * the Jaro formula otherwise; always within [0, 1].
   */
  function Jaro(a: string, b: string): (r: real)
    ensures 0.0 <= r <= 1.0
    ensures |a| == 0 && |b| == 0 ==> r == 1.0
    ensures r == 0.0 <==> (|a| > 0 || |b| > 0) && MatchPrefix(a, b, |a|).count == 0
  {
    if |a| == 0 && |b| == 0 then 1.0
    else
      var marks := MatchPrefix(a, b, |a|);
      if marks.count == 0 then 0.0
      else
        var t := Transpositions(a, b, marks.inA, marks.inB);
        JaroFormulaBounds(marks.count, t, |a|, |b|);
        JaroFormula(marks.count, t, |a|, |b|)
  }

  /**
   * `jaro_similarity`: the matching pass over the flag arrays, then the
   * transposition pass with the scan index `k` over `b`.
   */
  method JaroSimilarity(a: string, b: string) returns (sim: real)
    ensures sim == Jaro(a, b)
  {
    var len1, len2 := |a|, |b|;
    if len1 == 0 && len2 == 0 {
      return 1.0;
    }
    var matches1 := new bool[len1](_ => false);
    var matches2 := new bool[len2](_ => false);
    var matches := MarkMatches(a, b, matches1, matches2);
    if matches == 0 {
      assert Jaro(a, b) == 0.0;
      return 0.0;
    }
    var transpositions := CountTranspositions(a, b, matches1, matches2);
    ghost var marks := MatchPrefix(a, b, |a|);
    assert transpositions == Transpositions(a, b, marks.inA, marks.inB);
    assert Jaro(a, b) == JaroFormula(matches, transpositions, len1, len2);
    sim := JaroFormula(matches, transpositions, len1, len2);
  }

  /**
   * The matching pass of `jaro_similarity` over the flag arrays: each
   * character of `a` in turn is matched with the first unmatched equal
   * character of `b` in its window. Returns the counter `matches`.
   */
  method MarkMatches(a: string, b: string, matches1: array<bool>, matches2: array<bool>)
    returns (matches: nat)
    requires matches1.Length == |a| && matches2.Length == |b| && matches1 != matches2
    requires forall k :: 0 <= k < |a| ==> !matches1[k]
    requires forall k :: 0 <= k < |b| ==> !matches2[k]
    modifies matches1, matches2
    ensures var marks := MatchPrefix(a, b, |a|);
      matches1[..] == marks.inA && matches2[..] == marks.inB && matches == marks.count
  {
    var len1, len2 := |a|, |b|;
    var matchDistance := Max(len1, len2) / 2 - 1;
    assert matchDistance == MatchDistance(len1, len2);
    matches := 0;
    ghost var marks := MatchPrefix(a, b, 0);
    assert matches1[..] == marks.inA && matches2[..] == marks.inB;
    for i := 0 to len1
      invariant marks == MatchPrefix(a, b, i)
      invariant matches1[..] == marks.inA && matches2[..] == marks.inB && matches == marks.count
    {
      matches := MatchCharacter(a, b, matches1, matches2, i, matchDistance, matches, marks);
      MatchPrefixStep(a, b, i);
      marks := MatchStep(a, b, marks, i);
    }
  }

  /**
   * One iteration of the outer matching loop: scans the window of a[i] and,
   * on a hit, sets both flags and increments the counter.
   */
  method MatchCharacter(a: string, b: string, matches1: array<bool>, matches2: array<bool>, i: nat,
                        matchDistance: int, matches: nat, ghost prev: Marks)
    returns (count: nat)
    requires i < |a| && matches1.Length == |a| && matches2.Length == |b| && matches1 != matches2
    requires matchDistance == MatchDistance(|a|, |b|)
    requires matches1[..] == prev.inA && matches2[..] == prev.inB && matches == prev.count
    modifies matches1, matches2
    ensures var next := MatchStep(a, b, prev, i);
      matches1[..] == next.inA && matches2[..] == next.inB && count == next.count
  {
    var start := Max(0, i - matchDistance);
    var end := Min(|b|, i + matchDistance + 1);
    var found := FindFree(a, b, matches2, i, start, end);
    MatchStepFound(a, b, prev, i, found);
    count := matches;
    if found.Some? {
      matches1[i] := true;
      matches2[found.value] := true;
      count := matches + 1;
      assert matches1[..] == prev.inA[i := true] && matches2[..] == prev.inB[found.value := true];
    }
  }

  /** The step of the matching pass, given the result of the window scan. */
  lemma MatchStepFound(a: string, b: string, prev: Marks, i: nat, found: Option<nat>)
    requires i < |a| && |prev.inA| == |a| && |prev.inB| == |b|
    requires found == FirstFree(a, b, prev.inB, i, Max(0, i - MatchDistance(|a|, |b|)),
                                Min(|b|, i + MatchDistance(|a|, |b|) + 1))
    ensures found.Some? ==> (found.value < |b|
      && MatchStep(a, b, prev, i) == Marks(prev.inA[i := true], prev.inB[found.value := true], prev.count + 1))
    ensures found.None? ==> MatchStep(a, b, prev, i) == prev
  {
  }

  /**
   * The inner loop of the matching pass: scans the window [start, end) of
   * `b` for the first unmatched character equal to a[i].
   */
  method FindFree(a: string, b: string, matches2: array<bool>, i: nat, start: int, end: int)
    returns (found: Option<nat>)
    requires i < |a| && matches2.Length == |b| && 0 <= start && end <= |b|
    ensures found == FirstFree(a, b, matches2[..], i, start, end)
  {
    var j := start;
    while j < end
      invariant start <= j
      invariant FirstFree(a, b, matches2[..], i, j, end) == FirstFree(a, b, matches2[..], i, start, end)
      decreases end - j
    {
      if !matches2[j] && a[i] == b[j] {
        return Some(j);
      }
      j := j + 1;
    }
    return None;
  }

  /**
   * The transposition pass of `jaro_similarity`: walks the matched
   * characters of `a` in order, advancing the scan index `k` to the next
   * matched character of `b`, which always exists, and counts the pairs
   * that differ.
   */
  method CountTranspositions(a: string, b: string, matches1: array<bool>, matches2: array<bool>)
    returns (transpositions: nat)
    requires matches1.Length == |a| && matches2.Length == |b|
    requires CountTo(matches1[..], |a|) == CountTo(matches2[..], |b|)
    ensures transpositions == Transpositions(a, b, matches1[..], matches2[..])
  {
    var len1, len2 := |a|, |b|;
    ghost var flags1, flags2 := matches1[..], matches2[..];
    transpositions := 0;
    var k := 0;
    for i := 0 to len1
      invariant k <= len2 && CountTo(flags2, k) == CountTo(flags1, i)
      invariant transpositions == Mismatches(MatchedTo(a, flags1, i), MatchedTo(b, flags2, k))
    {
      if matches1[i] {
        // a match of a[i] is still to come, so an unvisited match of b remains
        CountMonotone(flags1, i + 1, len1);
        assert CountTo(flags2, k) < CountTo(flags2, len2);
        ghost var seen := MatchedTo(b, flags2, k);
        while !matches2[k]
          invariant k <= len2 && CountTo(flags2, k) == CountTo(flags1, i) < CountTo(flags2, len2)
          invariant MatchedTo(b, flags2, k) == seen
          decreases len2 - k
        {
          k := k + 1;
        }
        assert MatchedTo(a, flags1, i + 1) == MatchedTo(a, flags1, i) + [a[i]];
        assert MatchedTo(b, flags2, k + 1) == MatchedTo(b, flags2, k) + [b[k]];
        MismatchesSnoc(MatchedTo(a, flags1, i), MatchedTo(b, flags2, k), a[i], b[k]);
        if a[i] != b[k] {
          transpositions := transpositions + 1;
        }
        k := k + 1;
      } else {
        assert MatchedTo(a, flags1, i + 1) == MatchedTo(a, flags1, i);
      }
    }
    MatchedSaturated(b, flags2, k, len2);
  }

  /**
   * Length of the common prefix of a[i..] and b[i..], stopping at `limit`.
   */
  function CommonPrefixFrom(a: string, b: string, i: nat, limit: nat): (p: nat)
    requires i <= limit <= |a| && limit <= |b|
    ensures i <= p <= limit
    ensures forall k :: i <= k < p ==> a[k] == b[k]
    ensures p < limit ==> a[p] != b[p]
    decreases limit - i
  {
    if i < limit && a[i] == b[i] then CommonPrefixFrom(a, b, i + 1, limit) else i
  }

  /**
   * The Winkler prefix length: the longest common prefix of `a` and `b`,
   * capped at 4 characters.
   */
  function PrefixLength(a: string, b: string): (p: nat)
    ensures p <= 4 && p <= |a| && p <= |b|
    ensures a[..p] == b[..p]
    ensures p < Min3(|a|, |b|, 4) ==> a[p] != b[p]
  {
    var p := CommonPrefixFrom(a, b, 0, Min3(|a|, |b|, 4));
    assert a[..p] == b[..p];
    p
  }

  /**
   * The Winkler adjustment of a similarity j in [0, 1] for a prefix of p <= 4
   * characters: j raised by a tenth of the remaining distance 1 - j per
   * prefix character. It never lies below j, equals j when p is 0, rises
   * strictly above j when p > 0 and j < 1, and stays at most 1.
   */
  function WinklerFormula(j: real, p: nat): (r: real)
    requires 0.0 <= j <= 1.0 && p <= 4
    ensures j <= r <= 1.0
    ensures p == 0 ==> r == j
    ensures p > 0 && j < 1.0 ==> j < r
  {
    WinklerBonusBounds(j, p);
    j + WinklerBonus(j, p)
  }

  /** The source's `prefix_length * 0.1 * (1 - precomputed_jaro)`. */
  function WinklerBonus(j: real, p: nat): real
  {
    p as real * 0.1 * (1.0 - j)
  }

  /** The bonus lies within [0, 1 - j], and is positive when p > 0 and j < 1. */
  lemma WinklerBonusBounds(j: real, p: nat)
    requires 0.0 <= j <= 1.0 && p <= 4
    ensures 0.0 <= WinklerBonus(j, p) <= 1.0 - j
    ensures p > 0 && j < 1.0 ==> 0.0 < WinklerBonus(j, p)
  {
    // one linear case per prefix length
    if p == 0 {
    } else if p == 1 {
    } else if p == 2 {
    } else if p == 3 {
    } else {
      assert p == 4;
    }
  }

  /**
   * Jaro-Winkler similarity: the Winkler adjustment of the Jaro value. It is
   * never below the Jaro value, equals it without a common prefix, and is at
   * most 1.
   */
  function JaroWinkler(a: string, b: string): (r: real)
    ensures Jaro(a, b) <= r <= 1.0
    ensures PrefixLength(a, b) == 0 ==> r == Jaro(a, b)
  {
    WinklerFormula(Jaro(a, b), PrefixLength(a, b))
  }

  /**
   * `jaro_winkler_similarity`: the Jaro value and the prefix loop that stops
   * at the first differing character or after four characters.
   */
  method JaroWinklerSimilarity(a: string, b: string) returns (jw: real)
    ensures jw == JaroWinkler(a, b)
  {
    var precomputedJaro := JaroSimilarity(a, b);
    var prefixLength := 0;
    var maxPrefix := 4;
    var limit := Min3(|a|, |b|, maxPrefix);
    for i := 0 to limit
      invariant prefixLength == i
      invariant CommonPrefixFrom(a, b, i, limit) == CommonPrefixFrom(a, b, 0, limit)
    {
      if a[i] == b[i] {
        prefixLength := prefixLength + 1;
      } else {
        break;
      }
    }
    assert prefixLength == PrefixLength(a, b);
    jw := precomputedJaro + WinklerBonus(precomputedJaro, prefixLength);
  }

  /** The matching pass over a[..i + 1] is one more matching step after the pass over a[..i]. */
  lemma MatchPrefixStep(a: string, b: string, i: nat)
    requires i < |a|
    ensures MatchPrefix(a, b, i + 1) == MatchStep(a, b, MatchPrefix(a, b, i), i)
  {
  }

  // ---------------------------------------------------------------------
  // Properties of the Jaro similarity

  /**
   * When the longer string has at most one character the window is empty
   * (`match_distance` is -1), so nothing is ever matched.
   */
  lemma {:induction false} NoMatchWhenShort(a: string, b: string, i: nat)
    requires i <= |a| && |a| <= 1 && |b| <= 1
    ensures MatchPrefix(a, b, i).count == 0
  {
    if i > 0 {
      NoMatchWhenShort(a, b, i - 1);
      assert MatchDistance(|a|, |b|) == -1;
      MatchPrefixStep(a, b, i - 1);
    }
  }

  /**
   * The cases in which `jaro_similarity` returns 0.0 without reaching the
   * formula: one string empty and the other not, or the longer string of
   * length 1.
   */
  lemma JaroZeroCases(a: string, b: string)
    ensures (|a| == 0) != (|b| == 0) ==> Jaro(a, b) == 0.0
    ensures Max(|a|, |b|) == 1 ==> Jaro(a, b) == 0.0
  {
    if Max(|a|, |b|) == 1 {
      NoMatchWhenShort(a, b, |a|);
    }
  }

  /** Two equal one-character strings score 0.0, as the source computes. */
  lemma SingleCharacterQuirk()
    ensures Jaro("a", "a") == 0.0
    ensures JaroWinkler("a", "a") == 0.1
  {
    JaroZeroCases("a", "a");
    assert PrefixLength("a", "a") == 1;
  }

  /**
   * Matching a string of length at least 2 with itself: after i characters
   * exactly the first i positions are marked on both sides, because a[i]
   * always lies in its own window and every earlier position of the window
   * is already taken.
   */
  lemma {:induction false} MatchSelf(s: string, i: nat)
    requires 2 <= |s| && i <= |s|
    ensures SelfMarked(s, MatchPrefix(s, s, i), i)
  {
    if i > 0 {
      MatchSelf(s, i - 1);
      MatchPrefixStep(s, s, i - 1);
      MatchStepSelf(s, MatchPrefix(s, s, i - 1), i - 1);
    }
  }

  /** Exactly the first i positions are marked on both sides. */
  ghost predicate SelfMarked(s: string, marks: Marks, i: nat)
  {
    && |marks.inA| == |s| && |marks.inB| == |s| && marks.count == i
    && (forall k :: 0 <= k < |s| ==> marks.inA[k] == (k < i))
    && (forall k :: 0 <= k < |s| ==> marks.inB[k] == (k < i))
  }

  /** One matching step of a string against itself marks the next position on both sides. */
  lemma MatchStepSelf(s: string, prev: Marks, i: nat)
    requires 2 <= |s| && i < |s| && SelfMarked(s, prev, i)
    ensures SelfMarked(s, MatchStep(s, s, prev, i), i + 1)
  {
    var md := MatchDistance(|s|, |s|);
    assert 0 <= md;
    FirstFreeSelf(s, prev.inB, i, Max(0, i - md), Min(|s|, i + md + 1));
  }

  /** The first free position of a window whose earlier part is taken is a[i] itself. */
  lemma {:induction false} FirstFreeSelf(s: string, used: seq<bool>, i: nat, j: nat, end: int)
    requires i < |s| && |used| == |s| && j <= i < end <= |s|
    requires forall k :: 0 <= k < |s| ==> used[k] == (k < i)
    ensures FirstFree(s, s, used, i, j, end) == Some(i)
    decreases i - j
  {
    if j < i {
      FirstFreeSelf(s, used, i, j + 1, end);
    }
  }

  /** With every flag set, the matched characters are the prefix itself. */
  lemma {:induction false} MatchedAll(s: string, f: seq<bool>, n: nat)
    requires |s| == |f| && n <= |s| && forall k :: 0 <= k < |f| ==> f[k]
    ensures MatchedTo(s, f, n) == s[..n]
  {
    if n > 0 {
      MatchedAll(s, f, n - 1);
      assert s[..n] == s[..n - 1] + [s[n - 1]];
    }
  }

  /** A sequence has no mismatches with itself. */
  lemma {:induction false} MismatchesSelf(p: string)
    ensures Mismatches(p, p) == 0
  {
    if |p| > 0 {
      MismatchesSelf(p[..|p| - 1]);
    }
  }

  /** Matching a string of length at least 2 with itself: every character matches, in order. */
  lemma MatchAllSelf(s: string)
    requires 2 <= |s|
    ensures MatchPrefix(s, s, |s|).count == |s|
    ensures Transpositions(s, s, MatchPrefix(s, s, |s|).inA, MatchPrefix(s, s, |s|).inB) == 0
  {
    MatchSelf(s, |s|);
    var marks := MatchPrefix(s, s, |s|);
    MatchedAll(s, marks.inA, |s|);
    MatchedAll(s, marks.inB, |s|);
    assert s[..|s|] == s;
    MismatchesSelf(s);
  }

  /** A string of length at least 2 has Jaro and Jaro-Winkler similarity 1 with itself. */
  lemma JaroSelf(s: string)
    requires 2 <= |s|
    ensures Jaro(s, s) == 1.0
    ensures JaroWinkler(s, s) == 1.0
  {
    MatchAllSelf(s);
    var n := |s| as real;
    DivSelf(n);
    assert JaroFormula(|s|, 0, |s|, |s|) == (n / n + n / n + n / n) / 3.0;
    assert WinklerBonus(1.0, PrefixLength(s, s)) == 0.0;
  }

  /**
   * The matching pass of wxyz against xwyz, for w != x: a[0] takes b[1],
   * then a[1] takes b[0], and the last two characters match in place.
   */
  lemma SwappedPairMatches(w: char, x: char, y: char, z: char)
    requires w != x
    ensures MatchPrefix([w, x, y, z], [x, w, y, z], 4)
         == Marks([true, true, true, true], [true, true, true, true], 4)
  {
    var a, b := [w, x, y, z], [x, w, y, z];
    assert MatchDistance(4, 4) == 1;
    var none := [false, false, false, false];
    assert MatchPrefix(a, b, 0) == Marks(none, none, 0);
    MatchPrefixStep(a, b, 0);
    assert FirstFree(a, b, none, 0, 0, 2) == Some(1);
    assert MatchPrefix(a, b, 1) == Marks([true, false, false, false], [false, true, false, false], 1);
    MatchPrefixStep(a, b, 1);
    assert FirstFree(a, b, [false, true, false, false], 1, 0, 3) == Some(0);
    assert MatchPrefix(a, b, 2) == Marks([true, true, false, false], [true, true, false, false], 2);
    MatchPrefixStep(a, b, 2);
    assert FirstFree(a, b, [true, true, false, false], 2, 1, 4) == Some(2);
    assert MatchPrefix(a, b, 3) == Marks([true, true, true, false], [true, true, true, false], 3);
    MatchPrefixStep(a, b, 3);
    assert FirstFree(a, b, [true, true, true, false], 3, 2, 4) == Some(3);
  }

  /**
   * A swapped pair: every character of wxyz matches one of xwyz, and the
   * two transposed characters count as one transposition (`2 // 2`), so the
   * value is (1 + 1 + 3/4) / 3; "abcd" against "bacd" is one instance.
   */
  lemma TranspositionExample(w: char, x: char, y: char, z: char)
    requires w != x
    ensures Jaro([w, x, y, z], [x, w, y, z]) == 11.0 / 12.0
  {
    SwappedPairMatches(w, x, y, z);
    SwappedPairTranspositions(w, x, y, z);
    DivSelf(4.0);
  }

  /** The matched characters, read in order, are wxyz and xwyz: two mismatches. */
  lemma SwappedPairTranspositions(w: char, x: char, y: char, z: char)
    requires w != x
    ensures Transpositions([w, x, y, z], [x, w, y, z], [true, true, true, true], [true, true, true, true]) == 2
  {
    var a, b, flags := [w, x, y, z], [x, w, y, z], [true, true, true, true];
    MatchedAll(a, flags, 4);
    MatchedAll(b, flags, 4);
    assert a[..4] == a && b[..4] == b;
    SwappedPairMismatches(w, x, y, z);
  }

  /** wxyz and xwyz differ at exactly their first two positions. */
  lemma SwappedPairMismatches(w: char, x: char, y: char, z: char)
    requires w != x
    ensures Mismatches([w, x, y, z], [x, w, y, z]) == 2
  {
    var a, b := [w, x, y, z], [x, w, y, z];
    MismatchesSnoc([], [], w, x);
    assert [] + [w] == [w] && [] + [x] == [x];
    MismatchesSnoc([w], [x], x, w);
    assert [w] + [x] == [w, x] && [x] + [w] == [x, w];
    MismatchesSnoc([w, x], [x, w], y, y);
    assert [w, x] + [y] == [w, x, y] && [x, w] + [y] == [x, w, y];
    MismatchesSnoc([w, x, y], [x, w, y], z, z);
    assert [w, x, y] + [z] == a && [x, w, y] + [z] == b;
    assert Mismatches(a, b) == 2;
  }


  // ---------------------------------------------------------------------
  // Counting lemmas

  /** Extending both sequences by one character adds one mismatch exactly when the two differ. */
  lemma MismatchesSnoc(p: string, q: string, x: char, y: char)
    requires |p| == |q|
    ensures Mismatches(p + [x], q + [y]) == Mismatches(p, q) + (if x != y then 1 else 0)
  {
    assert (p + [x])[..|p|] == p && (q + [y])[..|q|] == q;
  }

  /** No flag of an all-false sequence is set. */
  lemma {:induction false} CountNone(f: seq<bool>, n: nat)
    requires n <= |f| && forall k :: 0 <= k < |f| ==> !f[k]
    ensures CountTo(f, n) == 0
  {
    if n > 0 {
      CountNone(f, n - 1);
    }
  }

  /** Setting an unset flag raises the count of every prefix that contains it by one. */
  lemma {:induction false} CountMark(f: seq<bool>, j: nat, n: nat)
    requires j < |f| && n <= |f| && !f[j]
    ensures CountTo(f[j := true], n) == CountTo(f, n) + (if j < n then 1 else 0)
  {
    if n > 0 {
      CountMark(f, j, n - 1);
    }
  }

  /** Counts of prefixes grow with the prefix. */
  lemma {:induction false} CountMonotone(f: seq<bool>, i: nat, n: nat)
    requires i <= n <= |f|
    ensures CountTo(f, i) <= CountTo(f, n)
    decreases n - i
  {
    if i < n {
      CountMonotone(f, i, n - 1);
    }
  }

  /**
   * When a prefix already holds all flags set in f[..n], the flags between
   * are unset and contribute no matched characters.
   */
  lemma {:induction false} MatchedSaturated(s: string, f: seq<bool>, k: nat, n: nat)
    requires |s| == |f| && k <= n <= |s|
    requires CountTo(f, k) == CountTo(f, n)
    ensures MatchedTo(s, f, k) == MatchedTo(s, f, n)
    decreases n - k
  {
    if k < n {
      CountMonotone(f, k, n - 1);
      MatchedSaturated(s, f, k, n - 1);
    }
  }

  /* ---------------- Similarity 1 means equal strings ---------------- */

  /** Setting a flag at or beyond n leaves the matched characters of s[..n] unchanged. */
  lemma {:induction false} MatchedUntouched(s: string, f: seq<bool>, j: nat, n: nat)
    requires |s| == |f| && j < |f| && n <= j
    ensures MatchedTo(s, f[j := true], n) == MatchedTo(s, f, n)
  {
    if n > 0 {
      MatchedUntouched(s, f, j, n - 1);
    }
  }

  /** Setting an unset flag below n adds its character to the matched characters of s[..n]. */
  lemma {:induction false} MatchedMark(s: string, f: seq<bool>, j: nat, n: nat)
    requires |s| == |f| && j < n <= |f| && !f[j]
    ensures multiset(MatchedTo(s, f[j := true], n)) == multiset(MatchedTo(s, f, n)) + multiset{s[j]}
  {
    if n == j + 1 {
      MatchedMarkLast(s, f, j, n);
    } else {
      MatchedMark(s, f, j, n - 1);
      MatchedMarkExtend(s, f, j, n);
    }
  }

  /** Past the changed flag j, one more position keeps the one-character difference. */
  lemma MatchedMarkExtend(s: string, f: seq<bool>, j: nat, n: nat)
    requires |s| == |f| && j + 1 < n <= |f|
    requires multiset(MatchedTo(s, f[j := true], n - 1)) == multiset(MatchedTo(s, f, n - 1)) + multiset{s[j]}
    ensures multiset(MatchedTo(s, f[j := true], n)) == multiset(MatchedTo(s, f, n)) + multiset{s[j]}
  {
    var t: string := if f[n - 1] then [s[n - 1]] else [];
    assert MatchedTo(s, f[j := true], n) == MatchedTo(s, f[j := true], n - 1) + t;
    assert MatchedTo(s, f, n) == MatchedTo(s, f, n - 1) + t;
    MultisetExtend(MatchedTo(s, f[j := true], n - 1), MatchedTo(s, f, n - 1), t, s[j]);
  }

  /** Setting the unset flag j adds s[j] at the end of the matched characters of s[..j+1]. */
  lemma MatchedMarkLast(s: string, f: seq<bool>, j: nat, n: nat)
    requires |s| == |f| && n == j + 1 <= |f| && !f[j]
    ensures multiset(MatchedTo(s, f[j := true], n)) == multiset(MatchedTo(s, f, n)) + multiset{s[j]}
  {
    MatchedUntouched(s, f, j, j);
    assert MatchedTo(s, f[j := true], n) == MatchedTo(s, f, n) + [s[j]];
  }

  /** Appending the same characters to two strings keeps the one-character difference of their multisets. */
  lemma MultisetExtend(u: string, v: string, t: string, c: char)
    requires multiset(u) == multiset(v) + multiset{c}
    ensures multiset(u + t) == multiset(v + t) + multiset{c}
  {
  }

  /**
   * The matching pass marks equal characters in pairs, so the marked
   * characters of `a` and those of `b` form the same multiset.
   */
  lemma {:induction false} MatchBalanced(a: string, b: string, i: nat)
    requires i <= |a|
    ensures multiset(MatchedTo(a, MatchPrefix(a, b, i).inA, |a|)) == multiset(MatchedTo(b, MatchPrefix(a, b, i).inB, |b|))
  {
    var marks := MatchPrefix(a, b, i);
    if i == 0 {
      MatchedNone(a, marks.inA);
      MatchedNone(b, marks.inB);
    } else {
      var prev := MatchPrefix(a, b, i - 1);
      MatchBalanced(a, b, i - 1);
      MatchPrefixStep(a, b, i - 1);
      assert marks == MatchStep(a, b, prev, i - 1);
      assert !prev.inA[i - 1];
      MatchStepBalanced(a, b, prev, i - 1);
    }
  }

  /** Without a set flag nothing is matched. */
  lemma MatchedNone(s: string, f: seq<bool>)
    requires |s| == |f| && CountTo(f, |f|) == 0
    ensures MatchedTo(s, f, |s|) == []
  {
  }

  /** One matching step marks a[i] together with an equal character of `b`, or nothing. */
  lemma MatchStepBalanced(a: string, b: string, prev: Marks, i: nat)
    requires i < |a| && |prev.inA| == |a| && |prev.inB| == |b| && !prev.inA[i]
    requires multiset(MatchedTo(a, prev.inA, |a|)) == multiset(MatchedTo(b, prev.inB, |b|))
    ensures var next := MatchStep(a, b, prev, i);
      multiset(MatchedTo(a, next.inA, |a|)) == multiset(MatchedTo(b, next.inB, |b|))
  {
    var md := MatchDistance(|a|, |b|);
    var found := FirstFree(a, b, prev.inB, i, Max(0, i - md), Min(|b|, i + md + 1));
    MatchStepFound(a, b, prev, i, found);
    if found.Some? {
      MatchedMark(a, prev.inA, i, |a|);
      MatchedMark(b, prev.inB, found.value, |b|);
    }
  }

  /** A prefix whose count equals its length has every flag set. */
  lemma {:induction false} CountAll(f: seq<bool>, n: nat)
    requires n <= |f| && CountTo(f, n) == n
    ensures forall k :: 0 <= k < n ==> f[k]
  {
    if n > 0 {
      assert CountTo(f, n - 1) <= n - 1;
      CountAll(f, n - 1);
    }
  }

  /** Sequences without mismatches are equal. */
  lemma {:induction false} MismatchesZero(p: string, q: string)
    requires |p| == |q| && Mismatches(p, q) == 0
    ensures p == q
  {
    if |p| > 0 {
      var n := |p| - 1;
      MismatchesZero(p[..n], q[..n]);
      assert p == p[..n] + [p[n]] && q == q[..n] + [q[n]];
    }
  }

  /** Extending one sequence by two characters gives equal multisets only for equal characters. */
  lemma SnocMultiset(u: string, x: char, y: char)
    requires multiset(u + [x]) == multiset(u + [y])
    ensures x == y
  {
    assert multiset(u + [x]) == multiset(u) + multiset{x};
    assert multiset(u + [y]) == multiset(u) + multiset{y};
    assert multiset(u + [y])[x] == multiset(u)[x] + (if x == y then 1 else 0);
  }

  /** A character appended to both sequences cancels in a multiset equation. */
  lemma MultisetSnocCancel(u: string, v: string, c: char)
    requires multiset(u + [c]) == multiset(v + [c])
    ensures multiset(u) == multiset(v)
  {
    forall x: char
      ensures multiset(u)[x] == multiset(v)[x]
    {
      assert multiset(u + [c])[x] == multiset(u)[x] + (if x == c then 1 else 0);
      assert multiset(v + [c])[x] == multiset(v)[x] + (if x == c then 1 else 0);
    }
  }

  /**
   * Two sequences with the same multiset of characters cannot differ at
   * exactly one position: with at most one mismatch they are equal.
   */
  lemma {:induction false} FewMismatchesEqual(p: string, q: string)
    requires |p| == |q| && multiset(p) == multiset(q) && Mismatches(p, q) <= 1
    ensures p == q
  {
    if |p| > 0 {
      var n := |p| - 1;
      var p', q' := p[..n], q[..n];
      assert Mismatches(p, q) == Mismatches(p', q') + (if p[n] != q[n] then 1 else 0);
      assert p == p' + [p[n]] && q == q' + [q[n]];
      if Mismatches(p', q') == 0 {
        MismatchesZero(p', q');
        SnocMultiset(p', p[n], q[n]);
      }
      MultisetSnocCancel(p', q', p[n]);
      FewMismatchesEqual(p', q');
    }
  }

  /** A ratio of naturals 0 <= p <= q equal to 1 has p == q. */
  lemma RatioOne(p: int, q: int)
    requires 0 <= p <= q && 0 < q && p as real / q as real == 1.0
    ensures p == q
  {
    assert p as real / q as real * q as real == p as real;
  }

  /**
   * The formula reaches 1 only when every character of both strings is
   * matched and `t // 2` is 0.
   */
  lemma JaroFormulaOne(m: nat, t: nat, len1: nat, len2: nat)
    requires 0 < m <= len1 && m <= len2 && t <= m
    requires JaroFormula(m, t, len1, len2) == 1.0
    ensures m == len1 && m == len2 && t / 2 == 0
  {
    RatioBounds(m, len1);
    RatioBounds(m, len2);
    RatioBounds(m - t / 2, m);
    RatioOne(m, len1);
    RatioOne(m, len2);
    RatioOne(m - t / 2, m);
  }

  /** Jaro similarity 1 means equal strings. */
  lemma JaroOne(a: string, b: string)
    requires Jaro(a, b) == 1.0
    ensures a == b
  {
    if |a| > 0 || |b| > 0 {
      var marks := MatchPrefix(a, b, |a|);
      var t := Transpositions(a, b, marks.inA, marks.inB);
      assert JaroFormula(marks.count, t, |a|, |b|) == 1.0;
      JaroFormulaOne(marks.count, t, |a|, |b|);
      FullMatchEqual(a, b, marks);
    }
  }

  /**
   * When the matching pass marks every character of two strings of equal
   * length and at most one matched pair differs, the strings are equal.
   */
  lemma FullMatchEqual(a: string, b: string, marks: Marks)
    requires marks == MatchPrefix(a, b, |a|) && marks.count == |a| == |b|
    requires Transpositions(a, b, marks.inA, marks.inB) <= 1
    ensures a == b
  {
    CountAll(marks.inA, |a|);
    CountAll(marks.inB, |b|);
    MatchedAll(a, marks.inA, |a|);
    MatchedAll(b, marks.inB, |b|);
    assert a[..|a|] == a && b[..|b|] == b;
    MatchBalanced(a, b, |a|);
    FewMismatchesEqual(a, b);
  }

  /** The Winkler adjustment reaches 1 only from a Jaro value of 1: the bonus is at most 0.4 of the gap. */
  lemma WinklerOne(j: real, p: nat)
    requires 0.0 <= j <= 1.0 && p <= 4 && WinklerFormula(j, p) == 1.0
    ensures j == 1.0
  {
    assert WinklerBonus(j, p) <= 0.4 * (1.0 - j) by {
      if p == 0 {
        assert WinklerBonus(j, p) == WinklerBonus(j, 0);
      } else if p == 1 {
        assert WinklerBonus(j, p) == WinklerBonus(j, 1);
      } else if p == 2 {
        assert WinklerBonus(j, p) == WinklerBonus(j, 2);
      } else if p == 3 {
        assert WinklerBonus(j, p) == WinklerBonus(j, 3);
      } else {
        assert WinklerBonus(j, p) == WinklerBonus(j, 4);
      }
    }
  }

  /** Jaro-Winkler similarity 1 means equal strings. */
  lemma JaroWinklerOne(a: string, b: string)
    requires JaroWinkler(a, b) == 1.0
    ensures a == b
  {
    WinklerOne(Jaro(a, b), PrefixLength(a, b));
    JaroOne(a, b);
  }
}
