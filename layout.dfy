/**
 * Page-layout predicates (src/utils/layout.ts): whether an observation sits
 * in the middle of the page, and whether a page's rows look like two-column
 * Arabic poetry.
 */
module Layout {
  import opened Types
  import Normalization

  /** The default share of the page width an observation's centre may be off the page centre. */
  const DefaultToleranceRatio: real := 0.05

  /** The default number of segments in a poetic row. */
  const DefaultExpectedCols: nat := 2

  /** The default share of rows that must be poetic. */
  const DefaultMinPoeticRatio: real := 0.6

  /** The horizontal centre of an observation's box. */
  function CenterX(o: Observation): real {
    o.bbox.x + o.bbox.width / 2.0
  }

  /** `isObservationCentered`: the box's centre is within `imageWidth * toleranceRatio` of the page centre. */
  predicate IsObservationCentered(observation: Observation, imageWidth: real, toleranceRatio: real) {
    Abs(CenterX(observation) - imageWidth / 2.0) <= imageWidth * toleranceRatio
  }

  /** Mirroring a page for right-to-left reading does not change which observations are centred. */
  lemma CenteredSurvivesFlip(observation: Observation, imageWidth: real, toleranceRatio: real)
    ensures IsObservationCentered(Normalization.FlipX(observation, imageWidth), imageWidth, toleranceRatio)
            == IsObservationCentered(observation, imageWidth, toleranceRatio)
  {
    var flipped := Normalization.FlipX(observation, imageWidth);
    assert CenterX(flipped) - imageWidth / 2.0 == -(CenterX(observation) - imageWidth / 2.0);
  }

  /** An observation whose centre is the page centre is centred for any tolerance that is not negative. */
  lemma ExactCentreIsCentered(observation: Observation, imageWidth: real, toleranceRatio: real)
    requires CenterX(observation) == imageWidth / 2.0
    requires imageWidth >= 0.0 && toleranceRatio >= 0.0
    ensures IsObservationCentered(observation, imageWidth, toleranceRatio)
  {
  }

  /** The page's own examples at width 960 with the default tolerance. */
  lemma CenteredExamples()
    ensures IsObservationCentered(Observation(BoundingBox(298.0, 0.0, 286.0, 0.0), ""), 960.0, DefaultToleranceRatio)
    ensures IsObservationCentered(Observation(BoundingBox(103.82, 0.0, 726.0, 0.0), ""), 960.0, DefaultToleranceRatio)
    ensures !IsObservationCentered(Observation(BoundingBox(73.0, 0.0, 716.0, 0.0), ""), 960.0, DefaultToleranceRatio)
  {
  }

  /** How many rows have exactly `expectedCols` segments (`lines.filter(...).length`). */
  function PoeticCount(lines: seq<seq<Observation>>, expectedCols: nat): (n: nat)
    ensures n <= |lines|
  {
    if lines == [] then 0
    else PoeticCount(lines[..|lines| - 1], expectedCols) + (if |lines[|lines| - 1]| == expectedCols then 1 else 0)
  }

  /** `isPoeticLayout`: at least three rows, and the share of poetic rows reaches `minPoeticRatio`. */
  predicate IsPoeticLayout(lines: seq<seq<Observation>>, expectedCols: nat, minPoeticRatio: real) {
    if |lines| < 3 then false
    else PoeticCount(lines, expectedCols) as real / |lines| as real >= minPoeticRatio
  }

  /** The ratio test without division: poetic exactly when the count reaches the ratio times the rows. */
  lemma PoeticLayoutByCount(lines: seq<seq<Observation>>, expectedCols: nat, minPoeticRatio: real)
    ensures IsPoeticLayout(lines, expectedCols, minPoeticRatio)
            <==> |lines| >= 3 && PoeticCount(lines, expectedCols) as real >= minPoeticRatio * |lines| as real
  {
    if |lines| >= 3 {
      RatioAtLeast(PoeticCount(lines, expectedCols) as real, |lines| as real, minPoeticRatio);
    }
  }

  /** For a positive denominator, a quotient reaches `m` exactly when the numerator reaches `m` times it. */
  lemma RatioAtLeast(c: real, n: real, m: real)
    requires n > 0.0
    ensures c / n >= m <==> c >= m * n
  {
    var q := c / n;
    assert q * n == c;
    if q >= m {
      assert q * n >= m * n;
    } else {
      assert q * n < m * n;
    }
  }

  /** `PoeticCount` counts the rows of the expected length, one by one. */
  lemma {:induction false} PoeticCountAll(lines: seq<seq<Observation>>, expectedCols: nat)
    ensures (forall k :: 0 <= k < |lines| ==> |lines[k]| == expectedCols) <==> PoeticCount(lines, expectedCols) == |lines|
    ensures (forall k :: 0 <= k < |lines| ==> |lines[k]| != expectedCols) <==> PoeticCount(lines, expectedCols) == 0
  {
    if lines != [] {
      var init := lines[..|lines| - 1];
      PoeticCountAll(init, expectedCols);
      assert forall k :: 0 <= k < |init| ==> init[k] == lines[k];
    }
  }

  /** Fewer than three rows are never poetic, whatever the thresholds. */
  lemma ShortPageIsNotPoetic(lines: seq<seq<Observation>>, expectedCols: nat, minPoeticRatio: real)
    requires |lines| < 3
    ensures !IsPoeticLayout(lines, expectedCols, minPoeticRatio)
  {
  }

  /**
   * With the defaults, three or more rows that all have two segments are
   * poetic and rows that never have two are not.
   */
  lemma PoeticDefaults(lines: seq<seq<Observation>>)
    requires |lines| >= 3
    ensures (forall k :: 0 <= k < |lines| ==> |lines[k]| == DefaultExpectedCols)
            ==> IsPoeticLayout(lines, DefaultExpectedCols, DefaultMinPoeticRatio)
    ensures (forall k :: 0 <= k < |lines| ==> |lines[k]| != DefaultExpectedCols)
            ==> !IsPoeticLayout(lines, DefaultExpectedCols, DefaultMinPoeticRatio)
  {
    PoeticCountAll(lines, DefaultExpectedCols);
    PoeticLayoutByCount(lines, DefaultExpectedCols, DefaultMinPoeticRatio);
  }
}
