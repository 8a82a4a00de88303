/**
 * Line and paragraph indexing (src/utils/indexing.ts): the observations are
 * put in y-order, each is tagged with the line or paragraph it starts or
 * continues, and the tagged list is sorted by (index, y).
 */
module Indexing {
  import opened Types
  import opened StableSort

  // ---------------------------------------------------------------------
  // Comparators
  // ---------------------------------------------------------------------

  /** `(a, b) => a.bbox.y - b.bbox.y`: `a` may stay before `b` unless `b` is strictly higher. */
  predicate ByY(a: Observation, b: Observation) {
    a.bbox.y <= b.bbox.y
  }

  lemma ByYIsTotalPreorder()
    ensures TotalPreorder(ByY)
  {
  }

  /** `(a, b) => a.index !== b.index ? a.index - b.index : a.bbox.y - b.bbox.y`. */
  predicate ByIndexThenY(a: IndexedObservation, b: IndexedObservation) {
    if a.index != b.index then a.index < b.index else a.bbox.y <= b.bbox.y
  }

  /** The observations in y-order, ties in input order. */
  function SortedByY(observations: seq<Observation>): (r: seq<Observation>)
    ensures |r| == |observations| && multiset(r) == multiset(observations)
  {
    SortBy(observations, ByY)
  }

  /** `SortedByY` puts the observations in y-order. */
  lemma SortedByYIsOrdered(observations: seq<Observation>)
    ensures SortedBy(SortedByY(observations), ByY)
  {
    ByYIsTotalPreorder();
    SortBySorted(observations, ByY);
  }

  /** Indices that never decrease along y-ordered observations leave nothing for the final sort to move. */
  lemma {:induction false} TaggedInOrder(byY: seq<Observation>, marked: seq<IndexedObservation>)
    requires |marked| == |byY|
    requires SortedBy(byY, ByY)
    requires forall k :: 0 <= k < |marked| ==> Strip(marked[k]) == byY[k]
    requires forall i, j {:trigger marked[i], marked[j]} :: 0 <= i && j == i + 1 && j < |marked| ==> marked[i].index <= marked[j].index
    ensures SortedBy(marked, ByIndexThenY)
  {
    forall i, j | 0 <= i < j < |marked| ensures ByIndexThenY(marked[i], marked[j]) {
      IndexMonotone(marked, i, j);
      assert marked[i].bbox == byY[i].bbox && marked[j].bbox == byY[j].bbox;
    }
  }

  lemma {:induction false} IndexMonotone(marked: seq<IndexedObservation>, i: nat, j: nat)
    requires i <= j < |marked|
    requires forall i, j {:trigger marked[i], marked[j]} :: 0 <= i && j == i + 1 && j < |marked| ==> marked[i].index <= marked[j].index
    ensures marked[i].index <= marked[j].index
    decreases j - i
  {
    if i < j {
      IndexMonotone(marked, i, j - 1);
      assert marked[j - 1].index <= marked[j].index;
    }
  }

  // ---------------------------------------------------------------------
  // indexObservationsAsLines
  // ---------------------------------------------------------------------

  /** `x` times `factor`; named so that the products stay whole terms in the proofs. */
  function Scaled(x: real, factor: real): real {
    x * factor
  }

  /** The vertical slack `pixelTolerance` scaled from 72 DPI to `dpi`. */
  function EffectiveYTolerance(dpi: real, pixelTolerance: real): real {
    Scaled(pixelTolerance, dpi / 72.0)
  }

  /** `obs` starts a new line after `prev` when it is lower by more than half the taller box plus the slack. */
  predicate StartsNewLine(prev: Observation, obs: Observation, effectiveYTolerance: real) {
    obs.bbox.y - prev.bbox.y > Max(prev.bbox.height, obs.bbox.height) * 0.5 + effectiveYTolerance
  }

  /** The line of the `k`-th observation in y-order: 0 for the first, then one more at each new line. */
  function LineIndex(byY: seq<Observation>, effectiveYTolerance: real, k: nat): nat
    requires k < |byY|
  {
    if k == 0 then 0
    else LineIndex(byY, effectiveYTolerance, k - 1)
         + (if StartsNewLine(byY[k - 1], byY[k], effectiveYTolerance) then 1 else 0)
  }

  /** The line of the `k`-th observation; stated apart so that each use unfolds one step. */
  function LineOf(byY: seq<Observation>, effectiveYTolerance: real, k: nat): nat
    requires k < |byY|
  {
    LineIndex(byY, effectiveYTolerance, k)
  }

  /** The y-ordered observations tagged with their lines. */
  function MarkLines(byY: seq<Observation>, effectiveYTolerance: real): (r: seq<IndexedObservation>)
    ensures |r| == |byY|
  {
    seq(|byY|, k requires 0 <= k < |byY| => Tag(byY[k], LineOf(byY, effectiveYTolerance, k)))
  }

  /** Tagging the next observation with its line extends a correctly tagged prefix. */
  lemma ExtendMarkedLines(byY: seq<Observation>, effectiveYTolerance: real, marked: seq<IndexedObservation>)
    requires |marked| < |byY|
    requires forall k {:trigger marked[k]} :: 0 <= k < |marked| ==>
               marked[k] == Tag(byY[k], LineOf(byY, effectiveYTolerance, k))
    ensures var next := marked + [Tag(byY[|marked|], LineOf(byY, effectiveYTolerance, |marked|))];
            forall k {:trigger next[k]} :: 0 <= k < |next| ==> next[k] == Tag(byY[k], LineOf(byY, effectiveYTolerance, k))
  {
  }

  /** What `indexObservationsAsLines` returns. */
  function IndexedLines(observations: seq<Observation>, dpi: real, pixelTolerance: real): seq<IndexedObservation> {
    SortBy(MarkLines(SortedByY(observations), EffectiveYTolerance(dpi, pixelTolerance)), ByIndexThenY)
  }

  /**
   * `indexObservationsAsLines`. On an empty list the source tags an
   * undefined element, so at least one observation is required.
   */
  method IndexObservationsAsLines(observations: seq<Observation>, dpi: real, pixelTolerance: real)
    returns (r: seq<IndexedObservation>)
    requires |observations| > 0
    ensures r == IndexedLines(observations, dpi, pixelTolerance)
  {
    var effectiveYTolerance := EffectiveYTolerance(dpi, pixelTolerance);
    var byY := SortedByY(observations);
    var marked: seq<IndexedObservation> := [];
    var currentLine: nat := 0;
    var prev := byY[0];
    marked := marked + [Tag(prev, currentLine)];
    for i := 1 to |byY|
      invariant |marked| == i
      invariant forall k {:trigger marked[k]} :: 0 <= k < i ==> marked[k] == Tag(byY[k], LineOf(byY, effectiveYTolerance, k))
      invariant prev == byY[i - 1] && currentLine == LineOf(byY, effectiveYTolerance, i - 1)
    {
      var obs := byY[i];
      var dy := obs.bbox.y - prev.bbox.y;
      var baseThresh := Max(prev.bbox.height, obs.bbox.height) * 0.5;
      var threshold := baseThresh + effectiveYTolerance;
      if dy > threshold {
        currentLine := currentLine + 1;
      }
      assert currentLine == LineOf(byY, effectiveYTolerance, i);
      ExtendMarkedLines(byY, effectiveYTolerance, marked);
      marked := marked + [Tag(obs, currentLine)];
      prev := obs;
    }
    assert marked == MarkLines(byY, effectiveYTolerance);
    r := SortBy(marked, ByIndexThenY);
  }

  /** Each tag is at least the one before it. */
  lemma MarkedLinesMonotone(byY: seq<Observation>, effectiveYTolerance: real)
    ensures var marked := MarkLines(byY, effectiveYTolerance);
            forall i, j {:trigger marked[i], marked[j]} :: 0 <= i && j == i + 1 && j < |marked| ==>
              marked[i].index <= marked[j].index
  {
    var marked := MarkLines(byY, effectiveYTolerance);
    forall i, j | 0 <= i && j == i + 1 && j < |marked| ensures marked[i].index <= marked[j].index {
      assert marked[j].index == LineIndex(byY, effectiveYTolerance, j);
    }
  }

  /** Line indices along y-ordered observations never decrease, so the tagged list is ordered by (index, y). */
  lemma MarkedLinesInOrder(byY: seq<Observation>, effectiveYTolerance: real)
    requires SortedBy(byY, ByY)
    ensures SortedBy(MarkLines(byY, effectiveYTolerance), ByIndexThenY)
  {
    MarkedLinesMonotone(byY, effectiveYTolerance);
    TaggedInOrder(byY, MarkLines(byY, effectiveYTolerance));
  }

  /** The final sort of `indexObservationsAsLines` moves nothing: the result is the tagged y-order. */
  lemma IndexedLinesAreMarked(observations: seq<Observation>, dpi: real, pixelTolerance: real)
    ensures IndexedLines(observations, dpi, pixelTolerance)
            == MarkLines(SortedByY(observations), EffectiveYTolerance(dpi, pixelTolerance))
  {
    SortedByYIsOrdered(observations);
    var marked := MarkLines(SortedByY(observations), EffectiveYTolerance(dpi, pixelTolerance));
    MarkedLinesInOrder(SortedByY(observations), EffectiveYTolerance(dpi, pixelTolerance));
    SortBySortedIsIdentity(marked, ByIndexThenY);
  }

  /** The result of `indexObservationsAsLines` is ordered by (index, y). */
  lemma IndexedLinesOrdered(observations: seq<Observation>, dpi: real, pixelTolerance: real)
    ensures SortedBy(IndexedLines(observations, dpi, pixelTolerance), ByIndexThenY)
  {
    IndexedLinesAreMarked(observations, dpi, pixelTolerance);
    SortedByYIsOrdered(observations);
    MarkedLinesInOrder(SortedByY(observations), EffectiveYTolerance(dpi, pixelTolerance));
  }

  /** Line indexing keeps every observation, once, in y-order. */
  lemma IndexedLinesKeepObservations(observations: seq<Observation>, dpi: real, pixelTolerance: real)
    ensures StripAll(IndexedLines(observations, dpi, pixelTolerance)) == SortedByY(observations)
    ensures multiset(StripAll(IndexedLines(observations, dpi, pixelTolerance))) == multiset(observations)
    ensures SortedBy(StripAll(IndexedLines(observations, dpi, pixelTolerance)), ByY)
  {
    IndexedLinesAreMarked(observations, dpi, pixelTolerance);
    SortedByYIsOrdered(observations);
    var byY := SortedByY(observations);
    assert StripAll(MarkLines(byY, EffectiveYTolerance(dpi, pixelTolerance))) == byY;
  }

  /**
   * The first observation is on line 0 and each next one is on the line of
   * the one before it, or on the next line exactly when it is lower than the
   * threshold allows.
   */
  lemma IndexedLinesSteps(observations: seq<Observation>, dpi: real, pixelTolerance: real)
    requires |observations| > 0
    ensures var r := IndexedLines(observations, dpi, pixelTolerance);
            && r[0].index == 0
            && (forall i, j {:trigger r[i], r[j]} :: 0 <= i && j == i + 1 && j < |r| ==>
                  r[j].index == r[i].index
                                + (if StartsNewLine(Strip(r[i]), Strip(r[j]), EffectiveYTolerance(dpi, pixelTolerance))
                                   then 1 else 0))
  {
    IndexedLinesAreMarked(observations, dpi, pixelTolerance);
    var byY := SortedByY(observations);
    var tolerance := EffectiveYTolerance(dpi, pixelTolerance);
    var r := MarkLines(byY, tolerance);
    forall i, j | 0 <= i && j == i + 1 && j < |r|
      ensures r[j].index == r[i].index + (if StartsNewLine(Strip(r[i]), Strip(r[j]), tolerance) then 1 else 0)
    {
      assert Strip(r[i]) == byY[i] && Strip(r[j]) == byY[j];
      assert r[j].index == LineIndex(byY, tolerance, j);
    }
  }

  /** A single observation is alone on line 0. */
  lemma SingleObservationIsLineZero(o: Observation, dpi: real, pixelTolerance: real)
    ensures IndexedLines([o], dpi, pixelTolerance) == [Tag(o, 0)]
  {
    IndexedLinesKeepObservations([o], dpi, pixelTolerance);
    IndexedLinesSteps([o], dpi, pixelTolerance);
    var r := IndexedLines([o], dpi, pixelTolerance);
    assert multiset(StripAll(r)) == multiset{o};
    assert StripAll(r)[0] in multiset{o};
  }

  // ---------------------------------------------------------------------
  // indexObservationsAsParagraphs
  // ---------------------------------------------------------------------

  /** `Math.max(...widths)` over a non-empty list. */
  function MaxWidth(s: seq<Observation>, n: nat): (m: real)
    requires 0 < n <= |s|
    ensures forall k :: 0 <= k < n ==> s[k].bbox.width <= m
    ensures exists k :: 0 <= k < n && s[k].bbox.width == m
  {
    if n == 1 then s[0].bbox.width else Max(MaxWidth(s, n - 1), s[n - 1].bbox.width)
  }

  /** A line narrower than the threshold ends its paragraph. */
  predicate ShortLine(o: Observation, thresholdWidth: real) {
    o.bbox.width < thresholdWidth
  }

  /** From the third line on, a gap wider than the previous gap times the factor starts a paragraph. */
  predicate VerticalJump(byY: seq<Observation>, i: nat, verticalJumpFactor: real)
    requires 2 <= i < |byY|
  {
    byY[i].bbox.y - byY[i - 1].bbox.y > Scaled(byY[i - 1].bbox.y - byY[i - 2].bbox.y, verticalJumpFactor)
  }

  /** How far the `i`-th line's paragraph is past the previous line's: one after a short line, one on a jump. */
  function ParagraphStep(byY: seq<Observation>, verticalJumpFactor: real, thresholdWidth: real, i: nat): nat
    requires 0 < i < |byY|
  {
    (if ShortLine(byY[i - 1], thresholdWidth) then 1 else 0)
    + (if i > 1 && VerticalJump(byY, i, verticalJumpFactor) then 1 else 0)
  }

  /** The paragraph of the `i`-th line in y-order: 0 for the first, then the previous paragraph plus the step. */
  function ParagraphIndex(byY: seq<Observation>, verticalJumpFactor: real, thresholdWidth: real, i: nat): nat
    requires i < |byY|
  {
    if i == 0 then 0
    else ParagraphIndex(byY, verticalJumpFactor, thresholdWidth, i - 1) + ParagraphStep(byY, verticalJumpFactor, thresholdWidth, i)
  }

  /** The paragraph of the `i`-th line; stated apart so that each use unfolds one step. */
  function ParagraphOf(byY: seq<Observation>, verticalJumpFactor: real, thresholdWidth: real, i: nat): nat
    requires i < |byY|
  {
    ParagraphIndex(byY, verticalJumpFactor, thresholdWidth, i)
  }

  /** The y-ordered lines tagged with their paragraphs. */
  function MarkParagraphs(byY: seq<Observation>, verticalJumpFactor: real, thresholdWidth: real)
    : (r: seq<IndexedObservation>)
    ensures |r| == |byY|
  {
    seq(|byY|, i requires 0 <= i < |byY| => Tag(byY[i], ParagraphOf(byY, verticalJumpFactor, thresholdWidth, i)))
  }

  /** Tagging the next line with its paragraph extends a correctly tagged prefix. */
  lemma ExtendMarkedParagraphs(byY: seq<Observation>, verticalJumpFactor: real, thresholdWidth: real,
                               out: seq<IndexedObservation>)
    requires |out| < |byY|
    requires forall k {:trigger out[k]} :: 0 <= k < |out| ==>
               out[k] == Tag(byY[k], ParagraphOf(byY, verticalJumpFactor, thresholdWidth, k))
    ensures var next := out + [Tag(byY[|out|], ParagraphOf(byY, verticalJumpFactor, thresholdWidth, |out|))];
            forall k {:trigger next[k]} :: 0 <= k < |next| ==>
              next[k] == Tag(byY[k], ParagraphOf(byY, verticalJumpFactor, thresholdWidth, k))
  {
  }

  /** The width below which a line is short: the widest line times the tolerance. */
  function ThresholdWidth(byY: seq<Observation>, widthTolerance: real): real
    requires |byY| > 0
  {
    Scaled(MaxWidth(byY, |byY|), widthTolerance)
  }

  /** What `indexObservationsAsParagraphs` returns. */
  function IndexedParagraphs(observations: seq<Observation>, verticalJumpFactor: real, widthTolerance: real)
    : seq<IndexedObservation>
  {
    var byY := SortedByY(observations);
    if byY == [] then []
    else SortBy(MarkParagraphs(byY, verticalJumpFactor, ThresholdWidth(byY, widthTolerance)), ByIndexThenY)
  }

  /**
   * `indexObservationsAsParagraphs`. With no observation the loop does not
   * run and the (infinite) width threshold is never used.
   */
  method IndexObservationsAsParagraphs(observations: seq<Observation>, verticalJumpFactor: real, widthTolerance: real)
    returns (r: seq<IndexedObservation>)
    ensures r == IndexedParagraphs(observations, verticalJumpFactor, widthTolerance)
  {
    var byY := SortedByY(observations);
    if |byY| == 0 {
      return [];
    }
    var maxWidth := MaxWidth(byY, |byY|);
    var thresholdWidth := Scaled(maxWidth, widthTolerance);
    var out: seq<IndexedObservation> := [];
    var index: nat := 0;
    for i := 0 to |byY|
      invariant |out| == i
      invariant forall k {:trigger out[k]} :: 0 <= k < i ==> out[k] == Tag(byY[k], ParagraphOf(byY, verticalJumpFactor, thresholdWidth, k))
      invariant index == if i == 0 then 0
                         else ParagraphOf(byY, verticalJumpFactor, thresholdWidth, i - 1)
                              + (if ShortLine(byY[i - 1], thresholdWidth) then 1 else 0)
    {
      var o := byY[i];
      if i > 1 {
        var prev := byY[i - 1];
        var prevPrev := byY[i - 2];
        var gap := o.bbox.y - prev.bbox.y;
        var prevGap := prev.bbox.y - prevPrev.bbox.y;
        if gap > Scaled(prevGap, verticalJumpFactor) {
          index := index + 1;
        }
      }
      assert index == ParagraphOf(byY, verticalJumpFactor, thresholdWidth, i);
      ExtendMarkedParagraphs(byY, verticalJumpFactor, thresholdWidth, out);
      out := out + [Tag(o, index)];
      if o.bbox.width < thresholdWidth {
        index := index + 1;
      }
    }
    assert out == MarkParagraphs(byY, verticalJumpFactor, thresholdWidth);
    r := SortBy(out, ByIndexThenY);
  }

  /** No observation gives no paragraph. */
  lemma NoObservationNoParagraph(verticalJumpFactor: real, widthTolerance: real)
    ensures IndexedParagraphs([], verticalJumpFactor, widthTolerance) == []
  {
  }

  /** Each tag is at least the one before it. */
  lemma MarkedParagraphsMonotone(byY: seq<Observation>, verticalJumpFactor: real, thresholdWidth: real)
    ensures var marked := MarkParagraphs(byY, verticalJumpFactor, thresholdWidth);
            forall i, j {:trigger marked[i], marked[j]} :: 0 <= i && j == i + 1 && j < |marked| ==>
              marked[i].index <= marked[j].index
  {
    var marked := MarkParagraphs(byY, verticalJumpFactor, thresholdWidth);
    forall i, j | 0 <= i && j == i + 1 && j < |marked| ensures marked[i].index <= marked[j].index {
      assert marked[j].index == ParagraphIndex(byY, verticalJumpFactor, thresholdWidth, j);
    }
  }

  /** Paragraph indices along y-ordered lines never decrease, so the tagged list is ordered by (index, y). */
  lemma MarkedParagraphsInOrder(byY: seq<Observation>, verticalJumpFactor: real, thresholdWidth: real)
    requires SortedBy(byY, ByY)
    ensures SortedBy(MarkParagraphs(byY, verticalJumpFactor, thresholdWidth), ByIndexThenY)
  {
    MarkedParagraphsMonotone(byY, verticalJumpFactor, thresholdWidth);
    TaggedInOrder(byY, MarkParagraphs(byY, verticalJumpFactor, thresholdWidth));
  }

  /** The final sort of `indexObservationsAsParagraphs` moves nothing: the result is the tagged y-order. */
  lemma IndexedParagraphsAreMarked(observations: seq<Observation>, verticalJumpFactor: real, widthTolerance: real)
    requires |observations| > 0
    ensures var byY := SortedByY(observations);
            IndexedParagraphs(observations, verticalJumpFactor, widthTolerance)
            == MarkParagraphs(byY, verticalJumpFactor, ThresholdWidth(byY, widthTolerance))
  {
    var byY := SortedByY(observations);
    SortedByYIsOrdered(observations);
    var marked := MarkParagraphs(byY, verticalJumpFactor, ThresholdWidth(byY, widthTolerance));
    MarkedParagraphsInOrder(byY, verticalJumpFactor, ThresholdWidth(byY, widthTolerance));
    SortBySortedIsIdentity(marked, ByIndexThenY);
  }

  /** The result of `indexObservationsAsParagraphs` is ordered by (index, y). */
  lemma IndexedParagraphsOrdered(observations: seq<Observation>, verticalJumpFactor: real, widthTolerance: real)
    ensures SortedBy(IndexedParagraphs(observations, verticalJumpFactor, widthTolerance), ByIndexThenY)
  {
    if observations != [] {
      IndexedParagraphsAreMarked(observations, verticalJumpFactor, widthTolerance);
      var byY := SortedByY(observations);
      SortedByYIsOrdered(observations);
      MarkedParagraphsInOrder(byY, verticalJumpFactor, ThresholdWidth(byY, widthTolerance));
    }
  }

  /** Paragraph indexing keeps every line, once, in y-order. */
  lemma IndexedParagraphsKeepObservations(observations: seq<Observation>, verticalJumpFactor: real, widthTolerance: real)
    ensures StripAll(IndexedParagraphs(observations, verticalJumpFactor, widthTolerance)) == SortedByY(observations)
    ensures multiset(StripAll(IndexedParagraphs(observations, verticalJumpFactor, widthTolerance))) == multiset(observations)
  {
    if observations != [] {
      IndexedParagraphsAreMarked(observations, verticalJumpFactor, widthTolerance);
      var byY := SortedByY(observations);
      assert StripAll(MarkParagraphs(byY, verticalJumpFactor, ThresholdWidth(byY, widthTolerance))) == byY;
    }
  }

  /**
   * The first line is in paragraph 0; each next line's paragraph is the
   * previous one, plus one after a short line, plus one more on a vertical
   * jump.
   */
  lemma IndexedParagraphsSteps(observations: seq<Observation>, verticalJumpFactor: real, widthTolerance: real)
    requires |observations| > 0
    ensures var r := IndexedParagraphs(observations, verticalJumpFactor, widthTolerance);
            var byY := SortedByY(observations);
            && r[0].index == 0
            && (forall i, j {:trigger r[i], r[j]} :: 0 <= i && j == i + 1 && j < |r| ==>
                  r[j].index == r[i].index
                                + (if ShortLine(byY[i], ThresholdWidth(byY, widthTolerance)) then 1 else 0)
                                + (if j > 1 && VerticalJump(byY, j, verticalJumpFactor) then 1 else 0))
  {
    IndexedParagraphsAreMarked(observations, verticalJumpFactor, widthTolerance);
    var byY := SortedByY(observations);
    var threshold := ThresholdWidth(byY, widthTolerance);
    var r := MarkParagraphs(byY, verticalJumpFactor, threshold);
    forall i, j | 0 <= i && j == i + 1 && j < |r|
      ensures r[j].index == r[i].index
                            + (if ShortLine(byY[i], threshold) then 1 else 0)
                            + (if j > 1 && VerticalJump(byY, j, verticalJumpFactor) then 1 else 0)
    {
      assert r[j].index == ParagraphIndex(byY, verticalJumpFactor, threshold, j);
    }
  }

  /**
   * Paragraph indices never decrease and rise by at most two from one line
   * to the next; a short line or a vertical jump always starts a new one.
   */
  lemma IndexedParagraphsBreaks(observations: seq<Observation>, verticalJumpFactor: real, widthTolerance: real)
    requires |observations| > 0
    ensures var r := IndexedParagraphs(observations, verticalJumpFactor, widthTolerance);
            var byY := SortedByY(observations);
            && (forall i, j {:trigger r[i], r[j]} :: 0 <= i && j == i + 1 && j < |r| ==>
                  r[i].index <= r[j].index <= r[i].index + 2)
            && (forall i, j {:trigger r[i], r[j]} ::
                  0 <= i && j == i + 1 && j < |r| && ShortLine(byY[i], ThresholdWidth(byY, widthTolerance)) ==>
                  r[i].index < r[j].index)
            && (forall i, j {:trigger r[i], r[j]} ::
                  1 <= i && j == i + 1 && j < |r| && VerticalJump(byY, j, verticalJumpFactor) ==>
                  r[i].index < r[j].index)
  {
    IndexedParagraphsSteps(observations, verticalJumpFactor, widthTolerance);
  }
}
