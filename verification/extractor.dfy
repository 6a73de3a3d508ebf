/** The value extractor (src/lib/value-extractor.ts): find the first line
    whose normalised text equals the anchor, build the candidate list on
    that line's page, and pick one entry by the query's tie-break. */
module Extractor {
  import opened Types
  import opened Text
  import opened Geometry
  import opened Candidates

  /** Where the anchor was found: the line and the index of its page. */
  datatype AnchorHit = AnchorHit(line: Line, page: nat)

  /** `Array.prototype.find` over a page: the index of the first line
      satisfying `isAnchor`. */
  function FindLine(lines: seq<Line>, isAnchor: Line -> bool): (r: Option<nat>)
    ensures r.Some? ==> r.value < |lines| && isAnchor(lines[r.value])
    ensures r.Some? ==> forall j :: 0 <= j < r.value ==> !isAnchor(lines[j])
    ensures r.None? <==> forall j :: 0 <= j < |lines| ==> !isAnchor(lines[j])
  {
    if |lines| == 0 then None
    else if isAnchor(lines[0]) then Some(0)
    else
      match FindLine(lines[1..], isAnchor)
      case None => None
      case Some(i) => Some(i + 1)
  }

  /** The page loop of `getAnchorLine`, from page `from` on: the first page
      holding a line that satisfies `isAnchor`. */
  function FindPage(pages: seq<Page>, isAnchor: Line -> bool, from: nat): (r: Option<nat>)
    requires from <= |pages|
    ensures r.Some? ==> from <= r.value < |pages|
    ensures r.Some? ==> FindLine(pages[r.value].lines, isAnchor).Some?
    ensures r.Some? ==> forall p :: from <= p < r.value ==> FindLine(pages[p].lines, isAnchor).None?
    ensures r.None? <==> forall p :: from <= p < |pages| ==> FindLine(pages[p].lines, isAnchor).None?
    decreases |pages| - from
  {
    if from == |pages| then None
    else if FindLine(pages[from].lines, isAnchor).Some? then Some(from)
    else FindPage(pages, isAnchor, from + 1)
  }

  /** Some line of some page matches the anchor. */
  predicate Occurs(doc: Document, anchor: string) {
    exists p, j :: 0 <= p < |doc.pages| && 0 <= j < |doc.pages[p].lines|
      && Matches(doc.pages[p].lines[j].text, anchor)
  }

  /** The predicate `getAnchorLine` hands to `find`. */
  function IsAnchor(anchor: string): Line -> bool {
    (l: Line) => Matches(l.text, anchor)
  }

  /** `getAnchorLine`: pages in order, lines in page order; the first line
      whose trimmed, lower-cased text equals the trimmed, lower-cased
      anchor, with its page index; `None` when no line anywhere matches. */
  function GetAnchorLine(doc: Document, anchor: string): (r: Option<AnchorHit>)
    ensures r.None? <==> !Occurs(doc, anchor)
    ensures r.Some? ==>
      && r.value.page < |doc.pages|
      && Matches(r.value.line.text, anchor)
      && FindLine(doc.pages[r.value.page].lines, IsAnchor(anchor)).Some?
      && r.value.line == doc.pages[r.value.page].lines[FindLine(doc.pages[r.value.page].lines, IsAnchor(anchor)).value]
    ensures r.Some? ==>
      forall p, j :: 0 <= p < r.value.page && 0 <= j < |doc.pages[p].lines| ==>
        !Matches(doc.pages[p].lines[j].text, anchor)
  {
    var isAnchor := IsAnchor(anchor);
    match FindPage(doc.pages, isAnchor, 0)
    case None =>
      assert !Occurs(doc, anchor) by {
        forall p, j | 0 <= p < |doc.pages| && 0 <= j < |doc.pages[p].lines|
          ensures !Matches(doc.pages[p].lines[j].text, anchor)
        {
          assert FindLine(doc.pages[p].lines, isAnchor).None?;
          assert !isAnchor(doc.pages[p].lines[j]);
        }
      }
      None
    case Some(p) =>
      var i := FindLine(doc.pages[p].lines, isAnchor).value;
      assert Occurs(doc, anchor) by {
        assert isAnchor(doc.pages[p].lines[i]);
        assert Matches(doc.pages[p].lines[i].text, anchor);
      }
      assert forall p', j :: 0 <= p' < p && 0 <= j < |doc.pages[p'].lines| ==>
        !Matches(doc.pages[p'].lines[j].text, anchor) by
      {
        forall p', j | 0 <= p' < p && 0 <= j < |doc.pages[p'].lines|
          ensures !Matches(doc.pages[p'].lines[j].text, anchor)
        {
          assert FindLine(doc.pages[p'].lines, isAnchor).None?;
          assert !isAnchor(doc.pages[p'].lines[j]);
        }
      }
      Some(AnchorHit(doc.pages[p].lines[i], p))
  }

  /** `getLinesOnRelevantSideOfAnchor`: the candidate list of page `page`
      for the anchor line and the query. */
  function CandidateList(doc: Document, anchorLine: Line, q: Query, page: nat): seq<Line>
    requires page < |doc.pages|
  {
    Build(doc.pages[page].lines, Scan(anchorLine.polygon, q))
  }

  /** The tie-break in force: label queries always take the nearest. */
  function TiebreakOf(q: Query): Tiebreaker {
    if q.Label? then First else q.tiebreaker
  }

  /** The `switch` of `findValue`: entry 0, entry 1 or the last entry, and
      `None` where the source reads past the end of the list. */
  function Pick(list: seq<Line>, t: Tiebreaker): (r: Option<Line>)
    ensures r.Some? ==> r.value in list
    ensures r.None? <==> |list| == 0 || (t == Second && |list| < 2)
    ensures r.Some? && t == First ==> r.value == list[0]
    ensures r.Some? && t == Second ==> r.value == list[1]
    ensures r.Some? && t == Last ==> r.value == list[|list| - 1]
  {
    match t
    case First => if |list| > 0 then Some(list[0]) else None
    case Second => if |list| > 1 then Some(list[1]) else None
    case Last => if |list| > 0 then Some(list[|list| - 1]) else None
  }

  /** The number of lines of page `page` that pass the side and alignment
      tests for the anchor line and the query. */
  function AcceptedCount(doc: Document, anchorLine: Line, q: Query, page: nat): nat
    requires page < |doc.pages|
  {
    |Accepted(doc.pages[page].lines, Scan(anchorLine.polygon, q))|
  }

  /** `findValue`: the picked line lies on the anchor's page and passes the
      side and alignment tests; nothing is picked exactly when no line
      passes, or a second entry is asked for and fewer than two pass; the
      first entry is a nearest passing line. */
  function FindValue(doc: Document, q: Query, anchorLine: Line, page: nat): (r: Option<Line>)
    requires page < |doc.pages|
    ensures r.Some? ==> r.value in doc.pages[page].lines && Accepts(r.value, anchorLine.polygon, q)
    ensures r.None? <==>
      AcceptedCount(doc, anchorLine, q, page) == 0
      || (TiebreakOf(q) == Second && AcceptedCount(doc, anchorLine, q, page) < 2)
    ensures r.Some? && TiebreakOf(q) == First ==>
      forall l :: l in doc.pages[page].lines && Accepts(l, anchorLine.polygon, q) ==>
        !IsCloser(Edge(l, q), Edge(r.value, q), q.Position())
  {
    var rk := Scan(anchorLine.polygon, q);
    var lines := doc.pages[page].lines;
    BuildIsPermutation(lines, rk);
    HeadIsNearestAccepted(lines, rk);
    Pick(CandidateList(doc, anchorLine, q, page), TiebreakOf(q))
  }

  /** `extractValue`: fails with `AnchorNotFound` exactly when no line of
      the document matches the anchor (whatever the rest of the query), and
      with `NoMatchFound` exactly when the anchor is found but `findValue`
      picks nothing; otherwise it returns a line of the anchor's page that
      passes the side and alignment tests. */
  function ExtractValue(doc: Document, q: Query): (r: Result<Line, ExtractionError>)
    ensures r == Failure(AnchorNotFound) <==> !Occurs(doc, q.anchor)
    ensures r == Failure(NoMatchFound) <==>
      && Occurs(doc, q.anchor)
      && var hit := GetAnchorLine(doc, q.anchor).value;
         var n := AcceptedCount(doc, hit.line, q, hit.page);
         n == 0 || (TiebreakOf(q) == Second && n < 2)
    ensures r.Success? ==>
      && GetAnchorLine(doc, q.anchor).Some?
      && var hit := GetAnchorLine(doc, q.anchor).value;
         r.value in doc.pages[hit.page].lines && Accepts(r.value, hit.line.polygon, q)
  {
    match GetAnchorLine(doc, q.anchor)
    case None => Failure(AnchorNotFound)
    case Some(hit) =>
      match FindValue(doc, q, hit.line, hit.page)
      case None => Failure(NoMatchFound)
      case Some(v) => Success(v)
  }

  // ---------------------------------------------------------------------
  // Properties of the extractor

  /** Label queries, and row queries with tie-break `first`, return a
      nearest passing line of the anchor's page. */
  lemma FirstIsNearest(doc: Document, q: Query)
    requires TiebreakOf(q) == First
    requires ExtractValue(doc, q).Success?
    ensures
      var hit := GetAnchorLine(doc, q.anchor).value;
      var v := ExtractValue(doc, q).value;
      forall l :: l in doc.pages[hit.page].lines && Accepts(l, hit.line.polygon, q) ==>
        !IsCloser(Edge(l, q), Edge(v, q), q.Position())
  {
  }

  /** Among equally near passing lines the first in page order is
      returned for `first`: the result is strictly nearer than every
      passing line before it on the page. */
  lemma FirstPrefersEarliest(doc: Document, q: Query) returns (i: nat)
    requires TiebreakOf(q) == First
    requires ExtractValue(doc, q).Success?
    ensures
      var hit := GetAnchorLine(doc, q.anchor).value;
      var lines := doc.pages[hit.page].lines;
      && i < |lines| && lines[i] == ExtractValue(doc, q).value
      && forall j :: 0 <= j < i && Accepts(lines[j], hit.line.polygon, q) ==>
           IsCloser(Edge(lines[i], q), Edge(lines[j], q), q.Position())
  {
    var hit := GetAnchorLine(doc, q.anchor).value;
    var lines := doc.pages[hit.page].lines;
    var rk := Scan(hit.line.polygon, q);
    i := HeadIsEarliestNearest(lines, rk);
  }

  /** A successful extraction is the entry the tie-break picks from the
      candidate list of the anchor's page. */
  lemma ExtractionPicksFromList(doc: Document, q: Query)
    requires ExtractValue(doc, q).Success?
    ensures
      var hit := GetAnchorLine(doc, q.anchor).value;
      var list := CandidateList(doc, hit.line, q, hit.page);
      Pick(list, TiebreakOf(q)) == Some(ExtractValue(doc, q).value)
  {
  }

  /** Tie-break `last` returns the line the reducer appended to the back
      last, that is, the last passing line (in page order) that was not
      strictly nearer than the head at the time it was folded in. */
  lemma LastIsLastAppended(doc: Document, q: Query)
    requires q.Row? && q.tiebreaker == Last
    requires ExtractValue(doc, q).Success?
    ensures
      var hit := GetAnchorLine(doc, q.anchor).value;
      var p := Pushed(doc.pages[hit.page].lines, Scan(hit.line.polygon, q));
      |p| > 0 && ExtractValue(doc, q).value == p[|p| - 1]
  {
    var hit := GetAnchorLine(doc, q.anchor).value;
    LastIsListTail(doc, q);
    PushedEnds(doc.pages[hit.page].lines, Scan(hit.line.polygon, q));
  }

  lemma LastIsListTail(doc: Document, q: Query)
    requires q.Row? && q.tiebreaker == Last
    requires ExtractValue(doc, q).Success?
    ensures
      var hit := GetAnchorLine(doc, q.anchor).value;
      var list := Build(doc.pages[hit.page].lines, Scan(hit.line.polygon, q));
      |list| > 0 && ExtractValue(doc, q).value == list[|list| - 1]
  {
    var hit := GetAnchorLine(doc, q.anchor).value;
    var list := CandidateList(doc, hit.line, q, hit.page);
    assert list == Build(doc.pages[hit.page].lines, Scan(hit.line.polygon, q));
    ExtractionPicksFromList(doc, q);
    PickedLast(list, ExtractValue(doc, q).value);
  }

  lemma PickedLast(list: seq<Line>, v: Line)
    requires Pick(list, Last) == Some(v)
    ensures |list| > 0 && v == list[|list| - 1]
  {
  }

  /** The anchor line itself is never returned when its quad has positive
      width and height: it fails its own side test. */
  lemma NeverReturnsAnchor(doc: Document, q: Query)
    requires GetAnchorLine(doc, q.anchor).Some?
    requires
      var a := GetAnchorLine(doc, q.anchor).value.line.polygon;
      Leftmost(a) < Rightmost(a) && Top(a) < Bottom(a)
    ensures ExtractValue(doc, q).Success? ==>
      ExtractValue(doc, q).value != GetAnchorLine(doc, q.anchor).value.line
  {
    NotInOwnTargetRange(GetAnchorLine(doc, q.anchor).value.line.polygon, q);
  }

  /** Using any line's own text, or its normal form, as the anchor finds an
      anchor on that line's page or an earlier one. */
  lemma OwnTextIsFound(doc: Document, p: nat, j: nat)
    requires p < |doc.pages| && j < |doc.pages[p].lines|
    ensures
      var t := doc.pages[p].lines[j].text;
      && GetAnchorLine(doc, t).Some? && GetAnchorLine(doc, t).value.page <= p
      && GetAnchorLine(doc, Norm(t)).Some? && GetAnchorLine(doc, Norm(t)).value.page <= p
  {
    var t := doc.pages[p].lines[j].text;
    NormIdempotent(t);
    assert Matches(doc.pages[p].lines[j].text, Norm(t));
  }
}
