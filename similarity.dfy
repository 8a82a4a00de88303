/**
 * Levenshtein distance, the normalised similarity ratio and the three-valued
 * token score used by the aligner (src/utils/similarity.ts, lines 1-105).
 */
module Similarity {
  import opened Types
  import opened TextUtils

  function Min3(a: nat, b: nat, c: nat): nat {
    if a <= b && a <= c then a else if b <= c then b else c
  }

  /**
   * The edit distance between the first `i` characters of `a` and the first
   * `j` characters of `b`, by its recursive definition: delete the last
   * character of `a`, insert the last character of `b`, or substitute (free
   * when the two agree).
   */
  function Dist(a: string, b: string, i: nat, j: nat): nat
    requires i <= |a| && j <= |b|
    decreases i + j
  {
    if i == 0 then j
    else if j == 0 then i
    else Min3(Dist(a, b, i - 1, j) + 1,
              Dist(a, b, i, j - 1) + 1,
              Dist(a, b, i - 1, j - 1) + (if a[i - 1] == b[j - 1] then 0 else 1))
  }

  /**
   * The distance between the prefixes of length `i` and `j`. Lemmas are
   * stated on this name, so that each use unfolds the recurrence one step.
   */
  function PrefixDistance(a: string, b: string, i: nat, j: nat): nat
    requires i <= |a| && j <= |b|
  {
    Dist(a, b, i, j)
  }

  /** The Levenshtein distance of two whole strings. */
  function EditDistance(a: string, b: string): nat {
    PrefixDistance(a, b, |a|, |b|)
  }

  lemma {:induction false} DistSymmetric(a: string, b: string, i: nat, j: nat)
    requires i <= |a| && j <= |b|
    ensures PrefixDistance(a, b, i, j) == PrefixDistance(b, a, j, i)
    decreases i + j
  {
    if i > 0 && j > 0 {
      DistSymmetric(a, b, i - 1, j);
      DistSymmetric(a, b, i, j - 1);
      DistSymmetric(a, b, i - 1, j - 1);
    }
  }

  lemma EditDistanceSymmetric(a: string, b: string)
    ensures EditDistance(a, b) == EditDistance(b, a)
  {
    DistSymmetric(a, b, |a|, |b|);
  }

  /** The distance of two prefixes is zero exactly when they are the same text. */
  lemma {:induction false} DistZero(a: string, b: string, i: nat, j: nat)
    requires i <= |a| && j <= |b|
    ensures PrefixDistance(a, b, i, j) == 0 <==> i == j && a[..i] == b[..j]
    decreases i + j
  {
    if i > 0 && j > 0 {
      DistZero(a, b, i - 1, j - 1);
      if i == j && a[..i] == b[..j] {
        assert a[..i - 1] == a[..i][..i - 1] && b[..j - 1] == b[..j][..j - 1];
        assert a[i - 1] == a[..i][i - 1] && b[j - 1] == b[..j][j - 1];
      }
      if PrefixDistance(a, b, i, j) == 0 {
        assert a[..i] == a[..i - 1] + [a[i - 1]] && b[..j] == b[..j - 1] + [b[j - 1]];
      }
    }
  }

  /** The distance is zero exactly for equal strings. */
  lemma EditDistanceZero(a: string, b: string)
    ensures EditDistance(a, b) == 0 <==> a == b
  {
    DistZero(a, b, |a|, |b|);
    assert a[..|a|] == a && b[..|b|] == b;
  }

  function MaxNat(x: nat, y: nat): nat {
    if x >= y then x else y
  }

  lemma {:induction false} DistAtMostLonger(a: string, b: string, i: nat, j: nat)
    requires i <= |a| && j <= |b|
    ensures PrefixDistance(a, b, i, j) <= MaxNat(i, j)
    decreases i + j
  {
    if i > 0 && j > 0 {
      DistAtMostLonger(a, b, i - 1, j - 1);
    }
  }

  /** The distance never exceeds the longer length. */
  lemma EditDistanceAtMostLonger(a: string, b: string)
    ensures EditDistance(a, b) <= MaxNat(|a|, |b|)
  {
    DistAtMostLonger(a, b, |a|, |b|);
  }

  /** The inner loop of `calculateLevenshteinDistance`: row `i` of the table from row `i - 1`. */
  method NextRow(longer: string, shorter: string, i: nat, previousRow: seq<nat>) returns (currentRow: seq<nat>)
    requires 1 <= i <= |longer|
    requires |previousRow| == |shorter| + 1
    requires forall j {:trigger previousRow[j]} :: 0 <= j <= |shorter| ==> previousRow[j] == PrefixDistance(longer, shorter, i - 1, j)
    ensures |currentRow| == |shorter| + 1
    ensures forall j {:trigger currentRow[j]} :: 0 <= j <= |shorter| ==> currentRow[j] == PrefixDistance(longer, shorter, i, j)
  {
    currentRow := [i];
    for j := 1 to |shorter| + 1
      invariant |currentRow| == j
      invariant forall k {:trigger currentRow[k]} :: 0 <= k < j ==> currentRow[k] == PrefixDistance(longer, shorter, i, k)
    {
      var substitutionCost := if longer[i - 1] == shorter[j - 1] then 0 else 1;
      var minCost := Min3(previousRow[j] + 1, currentRow[j - 1] + 1, previousRow[j - 1] + substitutionCost);
      currentRow := currentRow + [minCost];
    }
  }

  /**
   * `calculateLevenshteinDistance`: two rolling rows over the shorter
   * string, the outer loop running over the longer one.
   */
  method CalculateLevenshteinDistance(textA: string, textB: string) returns (distance: nat)
    ensures distance == EditDistance(textA, textB)
    ensures distance == 0 <==> textA == textB
    ensures distance <= MaxNat(|textA|, |textB|)
    ensures textA == [] ==> distance == |textB|
    ensures textB == [] ==> distance == |textA|
  {
    EditDistanceZero(textA, textB);
    EditDistanceAtMostLonger(textA, textB);
    var lengthA := |textA|;
    var lengthB := |textB|;
    if lengthA == 0 {
      return lengthB;
    }
    if lengthB == 0 {
      return lengthA;
    }
    var shorter, longer := textA, textB;
    if lengthA > lengthB {
      shorter, longer := textB, textA;
    }
    var shortLen := |shorter|;
    var longLen := |longer|;

    var previousRow := seq(shortLen + 1, index => index);
    for i := 1 to longLen + 1
      invariant |previousRow| == shortLen + 1
      invariant forall j {:trigger previousRow[j]} :: 0 <= j <= shortLen ==> previousRow[j] == PrefixDistance(longer, shorter, i - 1, j)
    {
      previousRow := NextRow(longer, shorter, i, previousRow);
    }
    distance := previousRow[shortLen];
    EditDistanceSymmetric(textA, textB);
  }

  /** The longer length, or 1 when both strings are empty (`Math.max(...) || 1`). */
  function MaxLength(a: string, b: string): (n: nat)
    ensures n >= 1 && n >= |a| && n >= |b|
  {
    if |a| == 0 && |b| == 0 then 1 else if |a| >= |b| then |a| else |b|
  }

  lemma RatioBounds(n: nat, d: nat)
    requires 1 <= n && d <= n
    ensures 0.0 <= (n - d) as real / n as real <= 1.0
    ensures (n - d) as real / n as real == 1.0 <==> d == 0
  {
    var q := (n - d) as real / n as real;
    assert q * n as real == (n - d) as real;
  }

  /** `calculateSimilarity`: one minus the distance relative to the longer length; 1 exactly for equal strings. */
  function CalculateSimilarity(textA: string, textB: string): (r: real)
    ensures 0.0 <= r <= 1.0
    ensures r == 1.0 <==> textA == textB
  {
    EditDistanceZero(textA, textB);
    EditDistanceAtMostLonger(textA, textB);
    var maxLength := MaxLength(textA, textB);
    RatioBounds(maxLength, EditDistance(textA, textB));
    (maxLength - EditDistance(textA, textB)) as real / maxLength as real
  }

  lemma SimilaritySymmetric(textA: string, textB: string)
    ensures CalculateSimilarity(textA, textB) == CalculateSimilarity(textB, textA)
  {
    EditDistanceSymmetric(textA, textB);
  }

  /** `areSimilarAfterNormalization`: similarity of the normalised texts against a threshold. */
  function AreSimilarAfterNormalization(textA: string, textB: string, threshold: real): (r: bool)
    ensures NormalizeArabicText(textA) == NormalizeArabicText(textB) && threshold <= 1.0 ==> r
    ensures threshold > 1.0 ==> !r
    ensures threshold <= 0.0 ==> r
  {
    CalculateSimilarity(NormalizeArabicText(textA), NormalizeArabicText(textB)) >= threshold
  }

  lemma SimilarAfterNormalizationSymmetric(textA: string, textB: string, threshold: real)
    ensures AreSimilarAfterNormalization(textA, textB, threshold)
            == AreSimilarAfterNormalization(textB, textA, threshold)
  {
    SimilaritySymmetric(NormalizeArabicText(textA), NormalizeArabicText(textB));
  }

  const PerfectMatch: int := 2
  const SoftMatch: int := 1
  const GapPenalty: int := -1
  const MismatchPenalty: int := -2

  /**
   * `calculateAlignmentScore`: 2 when the normalised tokens are equal;
   * otherwise 1 when either token is a typo symbol or the normalised
   * similarity reaches the threshold; otherwise -2.
   */
  function CalculateAlignmentScore(tokenA: string, tokenB: string, typoSymbols: seq<string>,
                                   similarityThreshold: real): (r: int)
    ensures r == PerfectMatch || r == SoftMatch || r == MismatchPenalty
    ensures r == PerfectMatch <==> NormalizeArabicText(tokenA) == NormalizeArabicText(tokenB)
    ensures r == SoftMatch <==>
              && NormalizeArabicText(tokenA) != NormalizeArabicText(tokenB)
              && (|| tokenA in typoSymbols || tokenB in typoSymbols
                  || CalculateSimilarity(NormalizeArabicText(tokenA), NormalizeArabicText(tokenB)) >= similarityThreshold)
  {
    var normalizedA := NormalizeArabicText(tokenA);
    var normalizedB := NormalizeArabicText(tokenB);
    if normalizedA == normalizedB then PerfectMatch
    else if tokenA in typoSymbols || tokenB in typoSymbols
            || CalculateSimilarity(normalizedA, normalizedB) >= similarityThreshold then SoftMatch
    else MismatchPenalty
  }

  /** The score does not depend on which side a token comes from. */
  lemma AlignmentScoreSymmetric(tokenA: string, tokenB: string, typoSymbols: seq<string>, similarityThreshold: real)
    ensures CalculateAlignmentScore(tokenA, tokenB, typoSymbols, similarityThreshold)
            == CalculateAlignmentScore(tokenB, tokenA, typoSymbols, similarityThreshold)
  {
    SimilaritySymmetric(NormalizeArabicText(tokenA), NormalizeArabicText(tokenB));
  }
}
