/**
 * The two edit-distance metrics of utils.py: Levenshtein distance and the
 * restricted Damerau-Levenshtein distance (optimal string alignment, OSA).
 *
 * Each metric is given twice: as a recursive function over prefix lengths,
 * which is the specification, and as the source's dynamic-programming method
 * that fills an (m+1) x (n+1) table cell by cell, proved to return the
 * specification's value.
 */
module EditMetrics {
  import opened Basics

  /** Substitution cost of two characters: 0 on a match, 1 otherwise. */
  function Cost(x: char, y: char): (c: nat)
    ensures c <= 1 && (c == 0 <==> x == y)
  {
    if x == y then 0 else 1
  }

  /**
   * The Levenshtein recurrence over prefix lengths: unit-cost deletion,
   * insertion and substitution between a[..i] and b[..j].
   */
  function LevenshteinRec(a: string, b: string, i: nat, j: nat): nat
    requires i <= |a| && j <= |b|
    decreases i + j
  {
    if i == 0 then j
    else if j == 0 then i
    else Min3(LevenshteinRec(a, b, i - 1, j) + 1,
              LevenshteinRec(a, b, i, j - 1) + 1,
              LevenshteinRec(a, b, i - 1, j - 1) + Cost(a[i - 1], b[j - 1]))
  }

  /** The table-cell view of `LevenshteinRec`: cell (i, j) of the source's table. */
  function LevenshteinPrefix(a: string, b: string, i: nat, j: nat): nat
    requires i <= |a| && j <= |b|
  {
    LevenshteinRec(a, b, i, j)
  }

  /**
   * Levenshtein distance of the whole strings. It is at least the
   * difference of the lengths and at most the longer length.
   */
  function Levenshtein(a: string, b: string): (d: nat)
    ensures Abs(|a| - |b|) <= d <= Max(|a|, |b|)
  {
    LevenshteinBounds(a, b, |a|, |b|);
    LevenshteinPrefix(a, b, |a|, |b|)
  }

  /**
   * `levenshtein_distance_dp`: fills the table row by row; row 0 and
   * column 0 hold the cumulative insertion and deletion costs.
   */
  method LevenshteinDistanceDp(a: string, b: string) returns (d: int)
    ensures d == Levenshtein(a, b)
  {
    var m, n := |a|, |b|;
    var table := new int[m + 1, n + 1]((_, _) => 0);
    for i := 0 to m + 1
      invariant forall r, c {:trigger table[r, c]} :: 0 <= r < i && 0 <= c <= n ==> table[r, c] == LevenshteinPrefix(a, b, r, c)
    {
      for j := 0 to n + 1
        invariant forall r, c {:trigger table[r, c]} :: 0 <= r < i && 0 <= c <= n ==> table[r, c] == LevenshteinPrefix(a, b, r, c)
        invariant forall c {:trigger table[i, c]} :: 0 <= c < j ==> table[i, c] == LevenshteinPrefix(a, b, i, c)
      {
        var cell := LevenshteinCell(a, b, table, i, j);
        table[i, j] := cell;
      }
    }
    d := table[m, n];
  }

  /**
   * The value the source stores in cell (i, j) of the Levenshtein table,
   * computed from the cells above, to the left and diagonally above.
   */
  method LevenshteinCell(a: string, b: string, table: array2<int>, i: nat, j: nat) returns (cell: int)
    requires table.Length0 == |a| + 1 && table.Length1 == |b| + 1 && i <= |a| && j <= |b|
    requires i > 0 && j > 0 ==> table[i - 1, j] == LevenshteinPrefix(a, b, i - 1, j)
    requires i > 0 && j > 0 ==> table[i, j - 1] == LevenshteinPrefix(a, b, i, j - 1)
    requires i > 0 && j > 0 ==> table[i - 1, j - 1] == LevenshteinPrefix(a, b, i - 1, j - 1)
    ensures cell == LevenshteinPrefix(a, b, i, j)
  {
    if i == 0 {
      cell := j;
    } else if j == 0 {
      cell := i;
    } else {
      var cost := if a[i - 1] == b[j - 1] then 0 else 1;
      cell := Min3(table[i - 1, j] + 1, table[i, j - 1] + 1, table[i - 1, j - 1] + cost);
    }
  }

  /**
   * The optimal-string-alignment recurrence over prefix lengths: the
   * Levenshtein recurrence plus one step that swaps two adjacent
   * characters. The swap step adds the substitution cost of the two last
   * characters, as the source does.
   */
  function DamerauRec(a: string, b: string, i: nat, j: nat): nat
    requires i <= |a| && j <= |b|
    decreases i + j
  {
    if i == 0 then j
    else if j == 0 then i
    else
      var cost := Cost(a[i - 1], b[j - 1]);
      var best := Min3(DamerauRec(a, b, i - 1, j) + 1,
                       DamerauRec(a, b, i, j - 1) + 1,
                       DamerauRec(a, b, i - 1, j - 1) + cost);
      if i > 1 && j > 1 && a[i - 1] == b[j - 2] && a[i - 2] == b[j - 1]
      then Min(best, DamerauRec(a, b, i - 2, j - 2) + cost)
      else best
  }

  /** The table-cell view of `DamerauRec`: cell (i, j) of the source's OSA table. */
  function DamerauPrefix(a: string, b: string, i: nat, j: nat): nat
    requires i <= |a| && j <= |b|
  {
    DamerauRec(a, b, i, j)
  }

  /**
   * Restricted Damerau-Levenshtein (OSA) distance of the whole strings,
   * with the same bounds as the Levenshtein distance.
   */
  function Damerau(a: string, b: string): (d: nat)
    ensures Abs(|a| - |b|) <= d <= Max(|a|, |b|)
  {
    DamerauBounds(a, b, |a|, |b|);
    DamerauPrefix(a, b, |a|, |b|)
  }

  /**
   * `damerau_levenshtein_distance`: initialises column 0 and row 0, then
   * fills the inner cells, lowering a cell by the swap step where the two
   * last characters of each prefix are crossed.
   */
  method DamerauLevenshteinDistance(a: string, b: string) returns (d: int)
    ensures d == Damerau(a, b)
  {
    var len1, len2 := |a|, |b|;
    var table := new int[len1 + 1, len2 + 1]((_, _) => 0);
    for i := 0 to len1 + 1
      invariant forall r :: 0 <= r < i ==> table[r, 0] == r
    {
      table[i, 0] := i;
    }
    for j := 0 to len2 + 1
      invariant forall r :: 0 <= r <= len1 ==> table[r, 0] == r
      invariant forall c :: 0 <= c < j ==> table[0, c] == c
    {
      table[0, j] := j;
    }
    for i := 1 to len1 + 1
      invariant forall r, c {:trigger table[r, c]} :: 0 <= r < i && 0 <= c <= len2 ==> table[r, c] == DamerauPrefix(a, b, r, c)
      invariant forall r :: i <= r <= len1 ==> table[r, 0] == r
    {
      for j := 1 to len2 + 1
        invariant forall r, c {:trigger table[r, c]} :: 0 <= r < i && 0 <= c <= len2 ==> table[r, c] == DamerauPrefix(a, b, r, c)
        invariant forall r :: i <= r <= len1 ==> table[r, 0] == r
        invariant forall c {:trigger table[i, c]} :: 0 <= c < j ==> table[i, c] == DamerauPrefix(a, b, i, c)
      {
        var cell := DamerauCell(a, b, table, i, j);
        table[i, j] := cell;
      }
    }
    d := table[len1, len2];
  }

  /**
   * The value the source stores in inner cell (i, j) of the OSA table: the
   * Levenshtein minimum, lowered by the swap step when a[i-1] == b[j-2]
   * and a[i-2] == b[j-1].
   */
  method DamerauCell(a: string, b: string, table: array2<int>, i: nat, j: nat) returns (cell: int)
    requires table.Length0 == |a| + 1 && table.Length1 == |b| + 1 && 1 <= i <= |a| && 1 <= j <= |b|
    requires table[i - 1, j] == DamerauPrefix(a, b, i - 1, j) && table[i, j - 1] == DamerauPrefix(a, b, i, j - 1)
    requires table[i - 1, j - 1] == DamerauPrefix(a, b, i - 1, j - 1)
    requires i > 1 && j > 1 ==> table[i - 2, j - 2] == DamerauPrefix(a, b, i - 2, j - 2)
    ensures cell == DamerauPrefix(a, b, i, j)
  {
    var cost := if a[i - 1] == b[j - 1] then 0 else 1;
    cell := Min3(table[i - 1, j] + 1, table[i, j - 1] + 1, table[i - 1, j - 1] + cost);
    if i > 1 && j > 1 && a[i - 1] == b[j - 2] && a[i - 2] == b[j - 1] {
      cell := Min(cell, table[i - 2, j - 2] + cost);
    }
  }

  /* ---------------- Properties of the two distances ---------------- */

  lemma {:induction false} LevenshteinBounds(a: string, b: string, i: nat, j: nat)
    requires i <= |a| && j <= |b|
    ensures Abs(i - j) <= LevenshteinPrefix(a, b, i, j) <= Max(i, j)
    decreases i + j
  {
    if i > 0 && j > 0 {
      LevenshteinBounds(a, b, i - 1, j);
      LevenshteinBounds(a, b, i, j - 1);
      LevenshteinBounds(a, b, i - 1, j - 1);
    }
  }

  lemma DamerauBounds(a: string, b: string, i: nat, j: nat)
    requires i <= |a| && j <= |b|
    ensures Abs(i - j) <= DamerauPrefix(a, b, i, j) <= Max(i, j)
  {
    DamerauLowerBound(a, b, i, j);
    DamerauUpperBound(a, b, i, j);
  }

  /** A cell is never below the difference of the prefix lengths. */
  lemma {:induction false} DamerauLowerBound(a: string, b: string, i: nat, j: nat)
    requires i <= |a| && j <= |b|
    ensures Abs(i - j) <= DamerauPrefix(a, b, i, j)
    decreases i + j
  {
    if i > 0 && j > 0 {
      DamerauLowerBound(a, b, i - 1, j);
      DamerauLowerBound(a, b, i, j - 1);
      DamerauLowerBound(a, b, i - 1, j - 1);
      if i > 1 && j > 1 {
        DamerauLowerBound(a, b, i - 2, j - 2);
      }
    }
  }

  /** A cell is never above the longer prefix length: substitute along the diagonal, then insert or delete. */
  lemma {:induction false} DamerauUpperBound(a: string, b: string, i: nat, j: nat)
    requires i <= |a| && j <= |b|
    ensures DamerauPrefix(a, b, i, j) <= Max(i, j)
    decreases i + j
  {
    if i > 0 && j > 0 {
      DamerauUpperBound(a, b, i - 1, j - 1);
    }
  }

  /** A prefix is at distance 0 from itself. */
  lemma {:induction false} LevenshteinPrefixSelf(s: string, i: nat)
    requires i <= |s|
    ensures LevenshteinPrefix(s, s, i, i) == 0
  {
    if i > 0 {
      LevenshteinPrefixSelf(s, i - 1);
    }
  }

  /** Distance 0 means the two prefixes are the same string. */
  lemma {:induction false} LevenshteinPrefixZero(a: string, b: string, i: nat, j: nat)
    requires i <= |a| && j <= |b|
    requires LevenshteinPrefix(a, b, i, j) == 0
    ensures i == j && a[..i] == b[..j]
    decreases i + j
  {
    LevenshteinBounds(a, b, i, j);
    if i > 0 && j > 0 {
      LevenshteinBounds(a, b, i - 1, j);
      LevenshteinBounds(a, b, i, j - 1);
      LevenshteinPrefixZero(a, b, i - 1, j - 1);
      assert a[..i] == a[..i - 1] + [a[i - 1]] && b[..j] == b[..j - 1] + [b[j - 1]];
    }
  }

  /** The Levenshtein distance is 0 exactly for equal strings. */
  lemma LevenshteinZeroIffEqual(a: string, b: string)
    ensures Levenshtein(a, b) == 0 <==> a == b
  {
    if a == b {
      LevenshteinPrefixSelf(a, |a|);
    }
    if Levenshtein(a, b) == 0 {
      LevenshteinPrefixZero(a, b, |a|, |b|);
      assert a == a[..|a|] && b == b[..|b|];
    }
  }

  lemma {:induction false} LevenshteinPrefixSymmetric(a: string, b: string, i: nat, j: nat)
    requires i <= |a| && j <= |b|
    ensures LevenshteinPrefix(a, b, i, j) == LevenshteinPrefix(b, a, j, i)
    decreases i + j
  {
    if i > 0 && j > 0 {
      LevenshteinPrefixSymmetric(a, b, i - 1, j);
      LevenshteinPrefixSymmetric(a, b, i, j - 1);
      LevenshteinPrefixSymmetric(a, b, i - 1, j - 1);
    }
  }

  /** The Levenshtein distance does not depend on the order of its arguments. */
  lemma LevenshteinSymmetric(a: string, b: string)
    ensures Levenshtein(a, b) == Levenshtein(b, a)
  {
    LevenshteinPrefixSymmetric(a, b, |a|, |b|);
  }

  /**
   * Cell (i, j) of the OSA table for (a, b) equals cell (j, i) for (b, a):
   * the swap condition and the substitution cost read the same both ways.
   */
  lemma {:induction false} DamerauPrefixSymmetric(a: string, b: string, i: nat, j: nat)
    requires i <= |a| && j <= |b|
    ensures DamerauPrefix(a, b, i, j) == DamerauPrefix(b, a, j, i)
    decreases i + j
  {
    if i > 0 && j > 0 {
      DamerauPrefixSymmetric(a, b, i - 1, j);
      DamerauPrefixSymmetric(a, b, i, j - 1);
      DamerauPrefixSymmetric(a, b, i - 1, j - 1);
      var diag2 := 0;
      if i > 1 && j > 1 {
        DamerauPrefixSymmetric(a, b, i - 2, j - 2);
        diag2 := DamerauPrefix(a, b, i - 2, j - 2);
      }
      DamerauUnfold(a, b, i, j);
      DamerauUnfold(b, a, j, i);
      assert Cost(a[i - 1], b[j - 1]) == Cost(b[j - 1], a[i - 1]);
      OsaCellSymmetric(DamerauPrefix(a, b, i - 1, j), DamerauPrefix(a, b, i, j - 1),
        DamerauPrefix(a, b, i - 1, j - 1), Cost(a[i - 1], b[j - 1]),
        i > 1 && j > 1 && a[i - 1] == b[j - 2] && a[i - 2] == b[j - 1], diag2);
    }
  }

  /**
   * An inner OSA cell from the cell above, the cell to the left, the
   * diagonal cell, the substitution cost, whether the swap step applies and
   * the cell two steps up the diagonal.
   */
  function OsaCell(up: nat, left: nat, diag: nat, cost: nat, swap: bool, diag2: nat): nat
  {
    var best := Min3(up + 1, left + 1, diag + cost);
    if swap then Min(best, diag2 + cost) else best
  }

  /**
   * An inner cell is the cheapest of its candidate edits: deletion,
   * insertion, substitution and, when the swap step applies, the swap.
   */
  lemma OsaCellLeast(up: nat, left: nat, diag: nat, cost: nat, swap: bool, diag2: nat)
    ensures var r := OsaCell(up, left, diag, cost, swap, diag2);
      r <= up + 1 && r <= left + 1 && r <= diag + cost && (swap ==> r <= diag2 + cost)
    ensures var r := OsaCell(up, left, diag, cost, swap, diag2);
      r == up + 1 || r == left + 1 || r == diag + cost || (swap && r == diag2 + cost)
  {
  }

  /** Exchanging the cell above and the cell to the left leaves an inner cell unchanged. */
  lemma OsaCellSymmetric(up: nat, left: nat, diag: nat, cost: nat, swap: bool, diag2: nat)
    ensures OsaCell(up, left, diag, cost, swap, diag2) == OsaCell(left, up, diag, cost, swap, diag2)
  {
  }

  /** One unfolding of the OSA recurrence at an inner cell. */
  lemma DamerauUnfold(a: string, b: string, i: nat, j: nat)
    requires 0 < i <= |a| && 0 < j <= |b|
    ensures DamerauPrefix(a, b, i, j) ==
      OsaCell(DamerauPrefix(a, b, i - 1, j), DamerauPrefix(a, b, i, j - 1), DamerauPrefix(a, b, i - 1, j - 1),
        Cost(a[i - 1], b[j - 1]), i > 1 && j > 1 && a[i - 1] == b[j - 2] && a[i - 2] == b[j - 1],
        if i > 1 && j > 1 then DamerauPrefix(a, b, i - 2, j - 2) else 0)
  {
  }

  /** The OSA distance does not depend on the order of its arguments. */
  lemma DamerauSymmetric(a: string, b: string)
    ensures Damerau(a, b) == Damerau(b, a)
  {
    DamerauPrefixSymmetric(a, b, |a|, |b|);
  }

  /**
   * Every cell of the OSA table is at most the matching cell of the
   * Levenshtein table: the swap step can only lower the minimum.
   */
  lemma {:induction false} DamerauPrefixAtMostLevenshtein(a: string, b: string, i: nat, j: nat)
    requires i <= |a| && j <= |b|
    ensures DamerauPrefix(a, b, i, j) <= LevenshteinPrefix(a, b, i, j)
    decreases i + j
  {
    if i > 0 && j > 0 {
      DamerauPrefixAtMostLevenshtein(a, b, i - 1, j);
      DamerauPrefixAtMostLevenshtein(a, b, i, j - 1);
      DamerauPrefixAtMostLevenshtein(a, b, i - 1, j - 1);
    }
  }

  lemma DamerauAtMostLevenshtein(a: string, b: string)
    ensures Damerau(a, b) <= Levenshtein(a, b)
  {
    DamerauPrefixAtMostLevenshtein(a, b, |a|, |b|);
  }

  /** Distance 0 under OSA also means the two prefixes are the same string. */
  lemma {:induction false} DamerauPrefixZero(a: string, b: string, i: nat, j: nat)
    requires i <= |a| && j <= |b|
    requires DamerauPrefix(a, b, i, j) == 0
    ensures i == j && a[..i] == b[..j]
    decreases i + j
  {
    if i > 0 && j > 0 {
      var cost := Cost(a[i - 1], b[j - 1]);
      var swap := i > 1 && j > 1 && a[i - 1] == b[j - 2] && a[i - 2] == b[j - 1];
      DamerauUnfold(a, b, i, j);
      OsaCellLeast(DamerauPrefix(a, b, i - 1, j), DamerauPrefix(a, b, i, j - 1), DamerauPrefix(a, b, i - 1, j - 1),
        cost, swap, if i > 1 && j > 1 then DamerauPrefix(a, b, i - 2, j - 2) else 0);
      if i > 1 && j > 1 && a[i - 1] == b[j - 2] && a[i - 2] == b[j - 1]
         && DamerauPrefix(a, b, i - 2, j - 2) + cost == 0 {
        // the swap step reaches 0: all four characters agree
        DamerauPrefixZero(a, b, i - 2, j - 2);
        EqualPrefixExtend(a, b, i - 2);
        EqualPrefixExtend(a, b, i - 1);
      } else {
        assert DamerauPrefix(a, b, i - 1, j - 1) + cost == 0;
        DamerauPrefixZero(a, b, i - 1, j - 1);
        EqualPrefixExtend(a, b, i - 1);
      }
    }
  }

  /** Equal prefixes followed by equal characters are equal prefixes one longer. */
  lemma EqualPrefixExtend(a: string, b: string, i: nat)
    requires i < |a| && i < |b| && a[..i] == b[..i] && a[i] == b[i]
    ensures a[..i + 1] == b[..i + 1]
  {
    assert a[..i + 1] == a[..i] + [a[i]] && b[..i + 1] == b[..i] + [b[i]];
  }

  /** The OSA distance is 0 exactly for equal strings. */
  lemma DamerauZeroIffEqual(a: string, b: string)
    ensures Damerau(a, b) == 0 <==> a == b
  {
    if a == b {
      LevenshteinPrefixSelf(a, |a|);
      DamerauPrefixAtMostLevenshtein(a, a, |a|, |a|);
    }
    if Damerau(a, b) == 0 {
      DamerauPrefixZero(a, b, |a|, |b|);
      assert a == a[..|a|] && b == b[..|b|];
    }
  }

  /** Swapping two adjacent distinct characters costs 1 under OSA and 2 under Levenshtein. */
  lemma AdjacentSwap(x: char, y: char)
    requires x != y
    ensures Damerau([x, y], [y, x]) == 1
    ensures Levenshtein([x, y], [y, x]) == 2
  {
    var a, b := [x, y], [y, x];
    assert DamerauPrefix(a, b, 1, 1) == 1;
    assert DamerauPrefix(a, b, 1, 2) == 1;
    assert DamerauPrefix(a, b, 2, 1) == 1;
    assert DamerauPrefix(a, b, 2, 2) == 1;
    assert LevenshteinPrefix(a, b, 1, 1) == 1;
    assert LevenshteinPrefix(a, b, 1, 2) == 1;
    assert LevenshteinPrefix(a, b, 2, 1) == 1;
    assert LevenshteinPrefix(a, b, 2, 2) == 2;
  }
}
