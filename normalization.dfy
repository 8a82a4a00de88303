/**
 * Coordinate clean-up before clustering (src/utils/normalization.ts): the
 * right-to-left flip of x, the snapping of nearly left-aligned observations
 * to the leftmost x, and the insertion of a footer by vertical position.
 */
module Normalization {
  import opened Types

  // ---------------------------------------------------------------------
  // mapOcrResultToRTLObservations
  // ---------------------------------------------------------------------

  /** The box mirrored about the page: its x measured from the right edge. */
  function FlipX(o: Observation, imageWidth: real): Observation {
    Observation(o.bbox.(x := imageWidth - o.bbox.x - o.bbox.width), o.text)
  }

  /** `mapOcrResultToRTLObservations`. */
  function MapOcrResultToRTLObservations(observations: seq<Observation>, imageWidth: real): (r: seq<Observation>)
    ensures |r| == |observations|
    ensures forall k :: 0 <= k < |r| ==>
              && r[k].bbox.x == imageWidth - observations[k].bbox.x - observations[k].bbox.width
              && r[k].bbox.y == observations[k].bbox.y
              && r[k].bbox.width == observations[k].bbox.width
              && r[k].bbox.height == observations[k].bbox.height
              && r[k].text == observations[k].text
  {
    seq(|observations|, k requires 0 <= k < |observations| => FlipX(observations[k], imageWidth))
  }

  /** Flipping twice about the same width gives back the original observations. */
  lemma FlipIsInvolution(observations: seq<Observation>, imageWidth: real)
    ensures MapOcrResultToRTLObservations(MapOcrResultToRTLObservations(observations, imageWidth), imageWidth)
            == observations
  {
    var twice := MapOcrResultToRTLObservations(MapOcrResultToRTLObservations(observations, imageWidth), imageWidth);
    forall k | 0 <= k < |observations| ensures twice[k] == observations[k] {
      assert twice[k].bbox == observations[k].bbox;
    }
  }

  // ---------------------------------------------------------------------
  // normalizeObservationsX
  // ---------------------------------------------------------------------

  /** `Math.min(...observations.map((o) => o.bbox.x))` over a non-empty list. */
  function MinX(observations: seq<Observation>): real
    requires observations != []
  {
    if |observations| == 1 then observations[0].bbox.x
    else Min(MinX(observations[..|observations| - 1]), observations[|observations| - 1].bbox.x)
  }

  /** The minimum is at most every x and is the x of some observation. */
  lemma {:induction false} MinXSpec(observations: seq<Observation>)
    requires observations != []
    ensures forall k :: 0 <= k < |observations| ==> MinX(observations) <= observations[k].bbox.x
    ensures exists k :: 0 <= k < |observations| && MinX(observations) == observations[k].bbox.x
  {
    if |observations| == 1 {
      assert MinX(observations) == observations[0].bbox.x;
    } else {
      var init := observations[..|observations| - 1];
      MinXSpec(init);
      forall k | 0 <= k < |init| ensures MinX(observations) <= observations[k].bbox.x {
        assert init[k] == observations[k];
      }
      if MinX(observations) != observations[|observations| - 1].bbox.x {
        var k :| 0 <= k < |init| && MinX(init) == init[k].bbox.x;
        assert init[k] == observations[k];
      }
    }
  }

  /**
   * Whether an offset from the leftmost x is within `(standardDPI / dpi) * 5`
   * pixels. With `dpi` zero the JS quotient is +Infinity, -Infinity or NaN
   * as `standardDPI` is positive, negative or zero, so only a positive
   * `standardDPI` lets every offset through.
   */
  predicate WithinSnap(offset: real, dpi: real, standardDPI: real) {
    if dpi == 0.0 then standardDPI > 0.0 else offset <= (standardDPI / dpi) * 5.0
  }

  /** One observation snapped to `minX` when it is within the threshold. */
  function SnapX(o: Observation, minX: real, dpi: real, standardDPI: real): Observation {
    if WithinSnap(Abs(o.bbox.x - minX), dpi, standardDPI) then Observation(o.bbox.(x := minX), o.text) else o
  }

  /** `normalizeObservationsX`; an empty list maps to itself. */
  function NormalizeObservationsX(observations: seq<Observation>, dpi: real, standardDPI: real)
    : (r: seq<Observation>)
    ensures |r| == |observations|
  {
    if observations == [] then []
    else
      var minX := MinX(observations);
      seq(|observations|, k requires 0 <= k < |observations| => SnapX(observations[k], minX, dpi, standardDPI))
  }

  /**
   * Only x changes; an observation within the threshold of the leftmost x
   * moves onto it and every other one stays where it is.
   */
  lemma NormalizeChangesOnlyX(observations: seq<Observation>, dpi: real, standardDPI: real)
    requires observations != []
    ensures var r := NormalizeObservationsX(observations, dpi, standardDPI);
            var minX := MinX(observations);
            forall k :: 0 <= k < |r| ==>
              && r[k].text == observations[k].text
              && r[k].bbox.y == observations[k].bbox.y
              && r[k].bbox.width == observations[k].bbox.width
              && r[k].bbox.height == observations[k].bbox.height
              && (WithinSnap(Abs(observations[k].bbox.x - minX), dpi, standardDPI) ==> r[k].bbox.x == minX)
              && (!WithinSnap(Abs(observations[k].bbox.x - minX), dpi, standardDPI) ==> r[k] == observations[k])
  {
  }

  /** The leftmost x is the same before and after, and no observation ends up left of it. */
  lemma NormalizeKeepsMinX(observations: seq<Observation>, dpi: real, standardDPI: real)
    requires observations != []
    ensures var r := NormalizeObservationsX(observations, dpi, standardDPI);
            && MinX(r) == MinX(observations)
            && forall k :: 0 <= k < |r| ==> MinX(observations) <= r[k].bbox.x
  {
    var r := NormalizeObservationsX(observations, dpi, standardDPI);
    var minX := MinX(observations);
    MinXSpec(observations);
    MinXSpec(r);
    var w :| 0 <= w < |observations| && minX == observations[w].bbox.x;
    assert r[w].bbox.x == minX;
    forall k | 0 <= k < |r| ensures minX <= r[k].bbox.x {
    }
  }

  /** A second pass moves nothing. */
  lemma NormalizeIdempotent(observations: seq<Observation>, dpi: real, standardDPI: real)
    ensures var once := NormalizeObservationsX(observations, dpi, standardDPI);
            NormalizeObservationsX(once, dpi, standardDPI) == once
  {
    if observations == [] {
      return;
    }
    var once := NormalizeObservationsX(observations, dpi, standardDPI);
    var twice := NormalizeObservationsX(once, dpi, standardDPI);
    NormalizeKeepsMinX(observations, dpi, standardDPI);
    var minX := MinX(observations);
    forall k | 0 <= k < |once| ensures twice[k] == once[k] {
      var o := observations[k];
      if WithinSnap(Abs(o.bbox.x - minX), dpi, standardDPI) {
        assert once[k].bbox.x == minX;
        assert Abs(once[k].bbox.x - minX) == 0.0;
        assert once[k].bbox.(x := minX) == once[k].bbox;
      } else {
        assert once[k] == o;
      }
    }
  }

  // ---------------------------------------------------------------------
  // applyFooter
  // ---------------------------------------------------------------------

  /** `findLastIndex((o) => o.bbox.y < footerY)`: the last index above the footer, or -1. */
  function FindLastAbove(observations: seq<Observation>, footerY: real): (r: int)
    ensures -1 <= r < |observations|
  {
    if observations == [] then -1
    else if observations[|observations| - 1].bbox.y < footerY then |observations| - 1
    else FindLastAbove(observations[..|observations| - 1], footerY)
  }

  /** The index found is above the footer and every later one is not; -1 exactly when none is above. */
  lemma {:induction false} FindLastAboveSpec(observations: seq<Observation>, footerY: real)
    ensures var p := FindLastAbove(observations, footerY);
            && (p >= 0 ==> observations[p].bbox.y < footerY)
            && (forall k :: p < k < |observations| ==> observations[k].bbox.y >= footerY)
            && (p == -1 <==> forall k :: 0 <= k < |observations| ==> observations[k].bbox.y >= footerY)
  {
    if observations != [] && observations[|observations| - 1].bbox.y >= footerY {
      var init := observations[..|observations| - 1];
      FindLastAboveSpec(init, footerY);
      assert forall k :: 0 <= k < |init| ==> init[k] == observations[k];
    }
  }

  /** What `applyFooter` returns: the footer spliced in after the last observation above it, or the input. */
  function WithFooter(observations: seq<Observation>, footer: Observation): seq<Observation> {
    var p := FindLastAbove(observations, footer.bbox.y);
    if p >= 0 then observations[..p + 1] + [footer] + observations[p + 1..] else observations
  }

  /** `applyFooter`: a copy of the list with the footer spliced into it, or the list itself. */
  method ApplyFooter(observations: seq<Observation>, footer: Observation) returns (r: seq<Observation>)
    ensures r == WithFooter(observations, footer)
  {
    var insertAfter := FindLastAbove(observations, footer.bbox.y);
    if insertAfter >= 0 {
      var observationsWithFooter := observations;
      observationsWithFooter := observationsWithFooter[..insertAfter + 1] + [footer]
                                + observationsWithFooter[insertAfter + 1..];
      return observationsWithFooter;
    }
    return observations;
  }

  /** When no observation is above the footer, the list comes back unchanged. */
  lemma FooterNotFound(observations: seq<Observation>, footer: Observation)
    requires forall k :: 0 <= k < |observations| ==> observations[k].bbox.y >= footer.bbox.y
    ensures WithFooter(observations, footer) == observations
  {
    FindLastAboveSpec(observations, footer.bbox.y);
  }

  /** The three parts of a splice `a + [x] + b` read back from it. */
  lemma SpliceParts(a: seq<Observation>, x: Observation, b: seq<Observation>)
    ensures |a + [x] + b| == |a| + |b| + 1
    ensures (a + [x] + b)[|a|] == x
    ensures (a + [x] + b)[..|a|] == a
    ensures (a + [x] + b)[|a| + 1..] == b
  {
    var r := a + [x] + b;
    assert r[..|a|] == a;
    assert r[|a| + 1..] == b;
  }

  /**
   * When some observation is above the footer, the list grows by one: the
   * footer sits right after the last observation above it, nothing after it
   * is above it, and taking it out gives the input back in its order.
   */
  lemma FooterInserted(observations: seq<Observation>, footer: Observation)
    requires exists k :: 0 <= k < |observations| && observations[k].bbox.y < footer.bbox.y
    ensures var p := FindLastAbove(observations, footer.bbox.y);
            var r := WithFooter(observations, footer);
            && 0 <= p < |observations|
            && |r| == |observations| + 1
            && r[p + 1] == footer
            && r[..p + 1] + r[p + 2..] == observations
            && observations[p].bbox.y < footer.bbox.y
            && forall k :: p + 2 <= k < |r| ==> r[k].bbox.y >= footer.bbox.y
  {
    FindLastAboveSpec(observations, footer.bbox.y);
    var p := FindLastAbove(observations, footer.bbox.y);
    var before, after := observations[..p + 1], observations[p + 1..];
    SpliceParts(before, footer, after);
    assert before + after == observations;
    var r := before + [footer] + after;
    forall k | p + 2 <= k < |r| ensures r[k].bbox.y >= footer.bbox.y {
      assert r[k] == after[k - p - 2];
    }
  }
}
