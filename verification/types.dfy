/** Data model of the OCR "standardized text" document and of the two query
    shapes the value extractor answers (src/lib/types.ts). */
module Types {

  /** The result of a lookup that may find nothing (`undefined` in the source). */
  datatype Option<+T> = None | Some(value: T)

  /** A success value or an error value (a thrown `Error` in the source). */
  datatype Result<+T, +E> = Success(value: T) | Failure(error: E)

  /** The four query directions. */
  datatype Direction = Right | Left | Below | Above

  /** The directions a row query and a text alignment may take. */
  type HorizontalDirection = d: Direction | d.Right? || d.Left? witness Right

  datatype Tiebreaker = First | Second | Last

  /** A point in document space; y grows downward. Coordinates are real
      numbers: the extractor only compares them and takes minima/maxima. */
  datatype Point = Point(x: real, y: real)

  /** A bounding quad. The source indexes its corners 0..3 and assumes they
      are, in that order, top-left, top-right, bottom-right and bottom-left;
      nothing checks it, so the corners are stored as given. */
  datatype Polygon = Polygon(c0: Point, c1: Point, c2: Point, c3: Point)

  /** The winding order every caller is expected to supply: corner 0 is left
      of corner 1, corner 3 left of corner 2, and the top corners are above
      the bottom ones. */
  predicate WellWound(p: Polygon) {
    && p.c0.x <= p.c1.x && p.c3.x <= p.c2.x
    && p.c0.y <= p.c3.y && p.c1.y <= p.c2.y
  }

  /** One OCR-recognised line of text and its bounding quad. */
  datatype Line = Line(text: string, polygon: Polygon)

  datatype Page = Page(lines: seq<Line>)

  datatype Document = Document(pages: seq<Page>)

  /** A label query (any direction, aligned on one horizontal edge of the
      anchor, always the nearest candidate) or a row query (left or right of
      the anchor, with an explicit tie-break). */
  datatype Query =
    | Label(position: Direction, textAlignment: HorizontalDirection, anchor: string)
    | Row(side: HorizontalDirection, tiebreaker: Tiebreaker, anchor: string)
  {
    /** The direction in which candidates are sought. */
    function Position(): Direction {
      match this
      case Label(p, _, _) => p
      case Row(s, _, _) => s
    }
  }

  /** The two errors `extractValue` throws. */
  datatype ExtractionError = AnchorNotFound | NoMatchFound {
    function Message(): string {
      match this
      case AnchorNotFound => "Anchor text not found"
      case NoMatchFound => "No match found for the requested anchor and position"
    }
  }
}
