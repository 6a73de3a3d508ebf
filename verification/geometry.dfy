/** Edge extraction, side, order and alignment tests over a bounding quad
    (src/lib/polygon-utils.ts; the same helpers are repeated as private
    methods of the extractor class, src/lib/value-extractor.ts:121-244). */
module Geometry {
  import opened Types

  /** Smallest x of the two left corners (0 and 3). */
  function Leftmost(p: Polygon): (r: real)
    ensures r <= p.c0.x && r <= p.c3.x
    ensures r == p.c0.x || r == p.c3.x
  {
    if p.c0.x <= p.c3.x then p.c0.x else p.c3.x
  }

  /** Largest x of the two right corners (1 and 2). */
  function Rightmost(p: Polygon): (r: real)
    ensures r >= p.c1.x && r >= p.c2.x
    ensures r == p.c1.x || r == p.c2.x
  {
    if p.c1.x >= p.c2.x then p.c1.x else p.c2.x
  }

  /** Smallest y of the two top corners (0 and 1). */
  function Top(p: Polygon): (r: real)
    ensures r <= p.c0.y && r <= p.c1.y
    ensures r == p.c0.y || r == p.c1.y
  {
    if p.c0.y <= p.c1.y then p.c0.y else p.c1.y
  }

  /** Largest y of the two bottom corners (3 and 2). */
  function Bottom(p: Polygon): (r: real)
    ensures r >= p.c2.y && r >= p.c3.y
    ensures r == p.c2.y || r == p.c3.y
  {
    if p.c3.y >= p.c2.y then p.c3.y else p.c2.y
  }

  function Opposite(d: Direction): Direction {
    match d
    case Right => Left
    case Left => Right
    case Below => Above
    case Above => Below
  }

  /** The edge of the anchor that a relationship in direction `d` is
      measured from. */
  function AnchorEdge(p: Polygon, d: Direction): real {
    match d
    case Right => Rightmost(p)
    case Left => Leftmost(p)
    case Below => Bottom(p)
    case Above => Top(p)
  }

  /** The edge of a candidate that faces an anchor lying in direction
      `Opposite(d)` from it. */
  function AdjacentEdge(p: Polygon, d: Direction): real {
    match d
    case Right => Leftmost(p)
    case Left => Rightmost(p)
    case Below => Top(p)
    case Above => Bottom(p)
  }

  /** Boundary-inclusive side test of a candidate edge against an anchor
      edge. */
  predicate IsOnTargetSide(lineEdge: real, anchorEdge: real, d: Direction) {
    match d
    case Right => lineEdge >= anchorEdge
    case Left => lineEdge <= anchorEdge
    case Below => lineEdge >= anchorEdge
    case Above => lineEdge <= anchorEdge
  }

  /** Whether an edge value lies strictly nearer to the anchor than another
      one, along direction `d`. */
  predicate IsCloser(current: real, prev: real, d: Direction) {
    match d
    case Right => current < prev
    case Left => current > prev
    case Below => current < prev
    case Above => current > prev
  }

  predicate AlignsWithHorizontalAnchorPoint(p: Polygon, point: real) {
    point >= Leftmost(p) && point <= Rightmost(p)
  }

  predicate AlignsVertically(p: Polygon, anchor: Polygon) {
    var top := Top(p);
    var bottom := Bottom(p);
    var anchorTop := Top(anchor);
    var anchorBottom := Bottom(anchor);
    (top <= anchorBottom && top >= anchorTop)
    || (bottom >= anchorTop && bottom <= anchorBottom)
  }

  /** Above/below queries align on one x of the anchor (the side named by
      the label's text alignment); left/right queries align vertically.
      A row query is never above or below. */
  predicate AlignsWithAnchor(p: Polygon, anchor: Polygon, q: Query) {
    if q.Label? && (q.position == Above || q.position == Below) then
      AlignsWithHorizontalAnchorPoint(p, AnchorEdge(anchor, q.textAlignment))
    else
      AlignsVertically(p, anchor)
  }

  /** The filter the candidate scan applies to every line of the page. */
  predicate IsInTargetRange(p: Polygon, anchor: Polygon, q: Query) {
    var d := q.Position();
    IsOnTargetSide(AdjacentEdge(p, d), AnchorEdge(anchor, d), d)
    && AlignsWithAnchor(p, anchor, q)
  }

  // ---------------------------------------------------------------------
  // Properties

  /** The target range, written out per direction in terms of the four
      edges. */
  lemma TargetRangeByDirection(p: Polygon, a: Polygon, q: Query)
    ensures q.Position() == Right ==>
      (IsInTargetRange(p, a, q) <==> Leftmost(p) >= Rightmost(a) && AlignsVertically(p, a))
    ensures q.Position() == Left ==>
      (IsInTargetRange(p, a, q) <==> Rightmost(p) <= Leftmost(a) && AlignsVertically(p, a))
    ensures q.Label? && q.position == Below ==>
      (IsInTargetRange(p, a, q) <==>
        Top(p) >= Bottom(a) && AlignsWithHorizontalAnchorPoint(p, AnchorEdge(a, q.textAlignment)))
    ensures q.Label? && q.position == Above ==>
      (IsInTargetRange(p, a, q) <==>
        Bottom(p) <= Top(a) && AlignsWithHorizontalAnchorPoint(p, AnchorEdge(a, q.textAlignment)))
  {
  }

  /** The side test accepts a candidate flush with the anchor's edge;
      otherwise it holds exactly when, ranked along `d`, the anchor's edge
      comes strictly before the candidate's. */
  lemma SideTestInclusive(e: real, a: real, d: Direction)
    ensures IsOnTargetSide(e, e, d)
    ensures IsOnTargetSide(e, a, d) <==> e == a || IsCloser(a, e, d)
  {
  }

  /** For every direction `IsCloser` is a strict total order on edge values,
      and opposite directions order the values in reverse. */
  lemma CloserIsStrictOrder(a: real, b: real, c: real, d: Direction)
    ensures !IsCloser(a, a, d)
    ensures IsCloser(a, b, d) ==> !IsCloser(b, a, d)
    ensures IsCloser(a, b, d) && IsCloser(b, c, d) ==> IsCloser(a, c, d)
    ensures a != b ==> IsCloser(a, b, d) || IsCloser(b, a, d)
    ensures IsCloser(a, b, d) == IsCloser(b, a, Opposite(d))
  {
  }

  /** A candidate's facing edge is the edge an anchor would use for the
      opposite direction. */
  lemma AdjacentIsOppositeAnchorEdge(p: Polygon, d: Direction)
    ensures AdjacentEdge(p, d) == AnchorEdge(p, Opposite(d))
    ensures AnchorEdge(p, d) == AdjacentEdge(p, Opposite(d))
  {
  }

  /** Above/below: the anchor's leftmost (alignment left) or rightmost
      (alignment right) x must fall in the candidate's closed x-interval. */
  lemma HorizontalAlignment(p: Polygon, a: Polygon, q: Query)
    requires q.Label? && (q.position == Above || q.position == Below)
    ensures q.textAlignment == Left ==>
      (AlignsWithAnchor(p, a, q) <==> Leftmost(p) <= Leftmost(a) <= Rightmost(p))
    ensures q.textAlignment == Right ==>
      (AlignsWithAnchor(p, a, q) <==> Leftmost(p) <= Rightmost(a) <= Rightmost(p))
  {
  }

  /** The usual closed-interval overlap of the candidate's and the anchor's
      vertical spans. */
  predicate SpansOverlap(p: Polygon, a: Polygon) {
    Top(p) <= Bottom(a) && Bottom(p) >= Top(a)
  }

  /** The candidate's vertical span strictly contains the anchor's. */
  predicate StrictlyEncloses(p: Polygon, a: Polygon) {
    Top(p) < Top(a) && Bottom(p) > Bottom(a)
  }

  /** Left/right: the candidate's top or bottom must lie in the anchor's
      closed vertical span. For a candidate whose top is not below its
      bottom this is interval overlap minus the case where the candidate
      strictly encloses the anchor; such a candidate is rejected. */
  lemma VerticalAlignment(p: Polygon, a: Polygon, q: Query)
    requires q.Position() == Left || q.Position() == Right
    ensures AlignsWithAnchor(p, a, q) <==>
      (Top(a) <= Top(p) <= Bottom(a)) || (Top(a) <= Bottom(p) <= Bottom(a))
    ensures StrictlyEncloses(p, a) ==> !AlignsWithAnchor(p, a, q)
    ensures Top(p) <= Bottom(p) ==>
      (AlignsWithAnchor(p, a, q) <==> SpansOverlap(p, a) && !StrictlyEncloses(p, a))
  {
  }

  /** A quad of positive width and height is never in its own target
      range: the side test fails in every direction. */
  lemma NotInOwnTargetRange(p: Polygon, q: Query)
    requires Leftmost(p) < Rightmost(p) && Top(p) < Bottom(p)
    ensures !IsInTargetRange(p, p, q)
  {
  }

  /** A quad in the expected winding order has its leftmost x at or left of
      its rightmost x and its top at or above its bottom. */
  lemma WellWoundEdges(p: Polygon)
    requires WellWound(p)
    ensures Leftmost(p) <= Rightmost(p)
    ensures Top(p) <= Bottom(p)
  {
  }
}
