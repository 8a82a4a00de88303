/**
 * Conversion of the Surya engine's page result into observations
 * (src/utils/surya.ts): corner boxes `[x1, y1, x2, y2]` become
 * x/y/width/height boxes and each text line becomes one observation.
 */
module Surya {
  import opened Types

  /** `mapBoundingBox`: the top-left corner kept, the size taken from the opposite corner. */
  function MapBoundingBox(box: (real, real, real, real)): (r: BoundingBox)
    ensures r.x == box.0 && r.y == box.1
    ensures r.x + r.width == box.2 && r.y + r.height == box.3
    ensures box.2 >= box.0 ==> r.width >= 0.0
    ensures box.3 >= box.1 ==> r.height >= 0.0
  {
    var (x1, y1, x2, y2) := box;
    BoundingBox(x1, y1, x2 - x1, y2 - y1)
  }

  /** Back from a box to its corners; the partner of `MapBoundingBox`. */
  function Corners(b: BoundingBox): (real, real, real, real) {
    (b.x, b.y, b.x + b.width, b.y + b.height)
  }

  /** Corner form and size form carry the same information both ways. */
  lemma BoundingBoxRoundTrip(box: (real, real, real, real), b: BoundingBox)
    ensures Corners(MapBoundingBox(box)) == box
    ensures MapBoundingBox(Corners(b)) == b
  {
  }

  /** `mapSuryaPageResultToObservations`: one observation per text line, in order, the text unchanged. */
  function MapSuryaPageResultToObservations(surya: SuryaPageOcrResult): (r: seq<Observation>)
    ensures |r| == |surya.textLines|
    ensures forall k :: 0 <= k < |r| ==>
              && r[k].text == surya.textLines[k].text
              && Corners(r[k].bbox) == surya.textLines[k].bbox
  {
    seq(|surya.textLines|, k requires 0 <= k < |surya.textLines| =>
      Observation(MapBoundingBox(surya.textLines[k].bbox), surya.textLines[k].text))
  }

  /** Two lines from the engine, as the page test gives them. */
  lemma MapTwoLinesExample()
    ensures MapSuryaPageResultToObservations(SuryaPageOcrResult([
              SuryaTextLine((10.0, 20.0, 100.0, 40.0), "First line"),
              SuryaTextLine((10.0, 50.0, 120.0, 70.0), "Second line")]))
            == [Observation(BoundingBox(10.0, 20.0, 90.0, 20.0), "First line"),
                Observation(BoundingBox(10.0, 50.0, 110.0, 20.0), "Second line")]
  {
  }

  /** Mapping distributes over concatenated pages: the order of lines is kept. */
  lemma MapKeepsOrder(a: seq<SuryaTextLine>, b: seq<SuryaTextLine>)
    ensures MapSuryaPageResultToObservations(SuryaPageOcrResult(a + b))
            == MapSuryaPageResultToObservations(SuryaPageOcrResult(a))
               + MapSuryaPageResultToObservations(SuryaPageOcrResult(b))
  {
  }
}
