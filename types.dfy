/**
 * The value types shared by every stage of the paragraph rebuilder
 * (mirrors src/types.ts). Coordinates, DPI values and ratios are exact
 * `real`s; strings are sequences of characters.
 */
module Types {

  /** JS `null` / `undefined` on an optional value. */
  datatype Option<+T> = None | Some(value: T)

  /** A value, or the message of the `Error` the source throws instead. */
  datatype Result<+T> = Success(value: T) | Failure(error: string)

  /** A rectangle given by its top-left corner and its dimensions. */
  datatype BoundingBox = BoundingBox(x: real, y: real, width: real, height: real)

  /** An OCR text fragment and where it sits on the page. */
  datatype Observation = Observation(bbox: BoundingBox, text: string)

  /** An observation tagged with the line or paragraph it belongs to. */
  datatype IndexedObservation = IndexedObservation(bbox: BoundingBox, text: string, index: nat)

  /** Options of the cross-engine typo correction. */
  datatype FixTypoOptions = FixTypoOptions(
    typoSymbols: seq<string>,
    similarityThreshold: real,
    highSimilarityThreshold: real)

  /** The complete result of one OCR pass over a page; `dpi` carries the
      image size in width/height and the DPI in x/y. */
  datatype OcrResult = OcrResult(
    dpi: BoundingBox,
    horizontalLines: Option<seq<BoundingBox>>,
    observations: seq<Observation>,
    alternateObservations: Option<seq<Observation>>,
    rectangles: Option<seq<BoundingBox>>)

  /** Options of the whole reconstruction; every field may be absent. */
  datatype RebuildOptions = RebuildOptions(
    typoSymbols: Option<seq<string>>,
    similarityThreshold: Option<real>,
    highSimilarityThreshold: Option<real>,
    fallbackDPI: Option<real>,
    footerSymbol: Option<string>,
    pixelTolerance: Option<real>,
    standardDpiX: Option<real>,
    verticalJumpFactor: Option<real>,
    widthTolerance: Option<real>)

  /** A text line of the Surya engine: its box as (x1, y1, x2, y2). */
  datatype SuryaTextLine = SuryaTextLine(bbox: (real, real, real, real), text: string)

  datatype SuryaPageOcrResult = SuryaPageOcrResult(textLines: seq<SuryaTextLine>)

  /** The observation part of an indexed observation (the `index` dropped). */
  function Strip(m: IndexedObservation): Observation {
    Observation(m.bbox, m.text)
  }

  /** Tags an observation with an index (`{ ...o, index }`). */
  function Tag(o: Observation, index: nat): IndexedObservation {
    IndexedObservation(o.bbox, o.text, index)
  }

  function StripAll(ms: seq<IndexedObservation>): (r: seq<Observation>)
    ensures |r| == |ms|
    ensures forall i :: 0 <= i < |ms| ==> r[i] == Strip(ms[i])
  {
    seq(|ms|, i requires 0 <= i < |ms| => Strip(ms[i]))
  }

  /** `parts.join(' ')`. */
  function Join(parts: seq<string>): string {
    if parts == [] then "" else if |parts| == 1 then parts[0] else parts[0] + " " + Join(parts[1..])
  }

  function Max(a: real, b: real): real {
    if a >= b then a else b
  }

  function Min(a: real, b: real): real {
    if a <= b then a else b
  }

  function Abs(a: real): real {
    if a < 0.0 then -a else a
  }
}
