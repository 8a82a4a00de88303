/**
 * `markObservationsWithIndex` (src/utils/sorting.ts), which repeats the
 * line clustering of `indexObservationsAsLines` loop for loop. Its
 * contract is that it returns exactly what the line indexer returns.
 */
module Sorting {
  import opened Types
  import opened StableSort
  import Indexing

  /**
   * `markObservationsWithIndex`. As for the line indexer, an empty list
   * would be tagged through an undefined first element, so at least one
   * observation is required.
   */
  method MarkObservationsWithIndex(observations: seq<Observation>, dpi: real, pixelTolerance: real)
    returns (r: seq<IndexedObservation>)
    requires |observations| > 0
    ensures r == Indexing.IndexedLines(observations, dpi, pixelTolerance)
  {
    var effectiveYTolerance := Indexing.EffectiveYTolerance(dpi, pixelTolerance);
    var byY := Indexing.SortedByY(observations);
    var marked: seq<IndexedObservation> := [];
    var currentLine: nat := 0;
    var prev := byY[0];
    marked := marked + [Tag(prev, currentLine)];
    for i := 1 to |byY|
      invariant |marked| == i
      invariant forall k {:trigger marked[k]} :: 0 <= k < i ==>
                  marked[k] == Tag(byY[k], Indexing.LineOf(byY, effectiveYTolerance, k))
      invariant prev == byY[i - 1] && currentLine == Indexing.LineOf(byY, effectiveYTolerance, i - 1)
    {
      var obs := byY[i];
      var dy := obs.bbox.y - prev.bbox.y;
      var baseThresh := Max(prev.bbox.height, obs.bbox.height) * 0.5;
      var threshold := baseThresh + effectiveYTolerance;
      if dy > threshold {
        currentLine := currentLine + 1;
      }
      assert currentLine == Indexing.LineOf(byY, effectiveYTolerance, i);
      Indexing.ExtendMarkedLines(byY, effectiveYTolerance, marked);
      marked := marked + [Tag(obs, currentLine)];
      prev := obs;
    }
    assert marked == Indexing.MarkLines(byY, effectiveYTolerance);
    r := SortBy(marked, Indexing.ByIndexThenY);
  }
}
