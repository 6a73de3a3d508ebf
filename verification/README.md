# value-extractor in Dafny

A model of the value-extraction engine of `value-extractor`. The engine works on
OCR output: a document is a list of pages, a page a list of lines, and each
line carries its text and a four-corner bounding polygon. A query names an
anchor text and where to look relative to it:

- a *label* query looks right, left, below or above the anchor. For below and
  above it aligns on the anchor's left or right edge. It always takes the
  nearest candidate.
- a *row* query looks right or left of the anchor. Its tie-break is `first`,
  `second` or `last`.

The engine works in four steps:

1. It finds the first line, in page order and then line order, whose trimmed,
   lower-cased text equals the trimmed, lower-cased anchor.
2. It folds that page's lines into a candidate list. A line that passes the
   side test and the alignment test goes to the front if its facing edge is
   strictly nearer than the current head's. Otherwise it goes to the back.
3. It picks entry 0, entry 1 or the last entry.
4. If the anchor is missing it fails with "Anchor text not found". If no entry
   can be picked it fails with "No match found for the requested anchor and
   position".

Modules:

- `Types` (`types.dfy`): documents, polygons, queries and the two errors.
- `Text` (`text.dfy`): trim and lower-case normalisation.
- `Geometry` (`geometry.dfy`): edges, side test, the "closer" order and
  alignment. The source has this code twice, once in `polygon-utils.ts` and
  once as private methods of the extractor (src/lib/value-extractor.ts:121-244).
  The two copies behave identically: they make the same comparisons on the same
  corners. They differ only in naming (string literals against enum constants),
  in the type of the anchor parameter (a line against its polygon), and in the
  extractor testing the target range inline (src/lib/value-extractor.ts:86-100)
  instead of calling `isInTargetRange`. The model defines the geometry once.
- `Candidates` (`candidates.dfy`): the candidate fold. It is written over an
  abstract `Ranking` (a filter, a key and a direction), so the order proofs do
  not depend on geometry. `Scan` builds the ranking for a real query.
- `Extractor` (`extractor.dfy`): anchor lookup, tie-break selection and the
  two error outcomes.

The repository's own files hint at more than the code does. Validation
messages for the query's id, position, text alignment and tie-break are declared
at src/lib/constants.ts:4-12, but no code uses them. The types `AnchorMapEntry`
and `ExtractedValue` at src/lib/types.ts:70-78 suggest an index of every anchor
occurrence and a list of (anchor, value) results, but no code uses them either.
The code takes the first matching line, validates nothing, keeps every passing
line in the fold above, and returns one line. The model follows the code.
One might expect the result not to depend on line order. In the code, the
first entry is always a nearest line. Among equally near lines, though, it is the earliest one on the page
(`Candidates.HeadIsEarliestNearest`). The second and last entries depend on
line order outright (`Candidates.SecondAndLastDependOnLineOrder`).

## Model

| member | source | states |
|---|---|---|
| Geometry.Leftmost | src/lib/polygon-utils.ts:134-136 | the left edge is at or left of corners 0 and 3 and equals one of them |
| Geometry.Rightmost | src/lib/polygon-utils.ts:130-132 | the right edge is at or right of corners 1 and 2 and equals one of them |
| Geometry.Top | src/lib/polygon-utils.ts:138-140 | the top edge is at or above corners 0 and 1 and equals one of them |
| Geometry.Bottom | src/lib/polygon-utils.ts:142-144 | the bottom edge is at or below corners 2 and 3 and equals one of them |
| Geometry.TargetRangeByDirection | src/lib/polygon-utils.ts:12-25 | per direction, a line is in range exactly when its facing edge is on or past the anchor's edge and it aligns with the anchor |
| Geometry.SideTestInclusive | src/lib/polygon-utils.ts:84-99 | a facing edge equal to the anchor edge passes in every direction; otherwise the test passes exactly when the anchor edge ranks strictly closer than the line's edge |
| Geometry.CloserIsStrictOrder | src/lib/polygon-utils.ts:27-42 | "closer" is irreflexive, asymmetric, transitive and total on distinct values for every direction, and each direction reverses its opposite |
| Geometry.AdjacentIsOppositeAnchorEdge | src/lib/polygon-utils.ts:44-68 | a candidate's facing edge for a direction is its anchor edge for the opposite direction, and vice versa |
| Geometry.HorizontalAlignment | src/lib/polygon-utils.ts:70-82 | for above/below, alignment holds exactly when the anchor's left x (alignment left) or right x (alignment right) lies in the candidate's closed x-interval |
| Geometry.VerticalAlignment | src/lib/polygon-utils.ts:110-128 | for left/right, alignment holds exactly when the candidate's top or bottom lies in the anchor's closed vertical span; a candidate strictly enclosing the anchor's span is rejected; for an upright candidate this is overlap minus enclosure |
| Geometry.NotInOwnTargetRange | src/lib/polygon-utils.ts:12-25 | a quad of positive width and height is never in its own target range, for any query |
| Geometry.WellWoundEdges | src/lib/types.ts:55 | a quad in top-left, top-right, bottom-right, bottom-left order has left edge at or left of right edge and top at or above bottom |
| Text.TrimStartSpec | src/lib/value-extractor.ts:66-67 | trimming the start drops exactly the leading white space: the result is a suffix, the dropped part is all white space, and the result does not start with white space |
| Text.TrimEndSpec | src/lib/value-extractor.ts:66-67 | trimming the end drops exactly the trailing white space, symmetrically |
| Text.TrimSpec | src/lib/value-extractor.ts:66-67 | `trim` keeps the slice between the first and last non-space characters; the result is empty exactly when the text is all white space |
| Text.LowerSpec | src/lib/value-extractor.ts:66-67 | lower-casing keeps the length, maps each character alone, changes exactly the ASCII upper-case letters, and leaves none behind |
| Text.NormIdempotent | src/lib/value-extractor.ts:66-67 | normalising twice equals normalising once, so every text matches its own normal form |
| Candidates.NearerOrder | src/lib/value-extractor.ts:102-110 | the head comparison is a strict weak order on lines: irreflexive, asymmetric, transitive, with transitive ties |
| Candidates.AcceptedMembers | src/lib/value-extractor.ts:84-101 | the reference list of passing lines holds exactly the passing lines of the page |
| Candidates.StepKeepsInvariant | src/lib/value-extractor.ts:85-116 | one reducer call leaves the list alone, prepends or appends; it adds exactly the current line if it passes and nothing otherwise, and keeps the head nearest |
| Candidates.BuildInvariant | src/lib/value-extractor.ts:84-118 | after the fold the list holds each passing line as often as the page does, and no entry is strictly nearer than the head |
| Candidates.BuildIsPermutation | src/lib/value-extractor.ts:84-118 | the candidate list is a permutation of the passing lines: same length, same members, same multiplicities |
| Candidates.HeadIsNearestAccepted | src/lib/value-extractor.ts:102-113 | the list is empty exactly when no line passes, and no passing line is strictly nearer than its head |
| Candidates.HeadIsEarliestNearest | src/lib/value-extractor.ts:102-110 | the head is a passing line that no passing line beats and that is strictly nearer than every passing line before it on the page, so ties keep the earliest |
| Candidates.BuildShape | src/lib/value-extractor.ts:102-113 | the list is the front-inserted lines, newest first, followed by the back-appended lines in page order |
| Candidates.PushedEnds | src/lib/value-extractor.ts:102-113 | a non-empty list has at least one back-appended line, and the last of them is the list's tail |
| Candidates.FoldThree | src/lib/value-extractor.ts:84-118 | three passing lines with strictly ordered distances fold to lists whose second and last entries depend on their page order |
| Candidates.SecondAndLastDependOnLineOrder | src/lib/value-extractor.ts:102-113 | for three lines right of an anchor whose right edge is at x = -0.5, with facing edges at x = 5, 1 and 3, order A, B, C gives [B, A, C] and order A, C, B gives [B, C, A]: the second entry is the farthest in one order but not the other, and the last entry changes |
| Extractor.FindLine | src/lib/value-extractor.ts:65-68 | `find` returns an index of a matching line with no matching line before it, and nothing exactly when no line matches |
| Extractor.FindPage | src/lib/value-extractor.ts:64-73 | the page loop stops at the first page holding a match and finds nothing exactly when no page from the start index has one |
| Extractor.GetAnchorLine | src/lib/value-extractor.ts:57-76 | the anchor is missing exactly when no line of the document matches; otherwise it is the first matching line of the first page holding a match, with that page's index |
| Extractor.Pick | src/lib/value-extractor.ts:44-54 | the picked entry is entry 0, 1 or the last entry of the list; nothing is picked exactly when the list is empty or `second` is asked of a list shorter than two |
| Extractor.FindValue | src/lib/value-extractor.ts:33-55 | the picked line is on the anchor's page and passes both tests; nothing is picked exactly when no line passes, or `second` is asked and fewer than two pass; `first` gives a nearest passing line |
| Extractor.ExtractValue | src/lib/value-extractor.ts:21-31 | fails with "anchor not found" exactly when no line matches the anchor, whatever the rest of the query; fails with "no match" exactly when the anchor is found and the tie-break has no entry; otherwise returns a passing line of the anchor's page |
| Extractor.FirstIsNearest | src/lib/value-extractor.ts:44-49 | label queries and `first` rows return a line no passing line of the page is strictly nearer than |
| Extractor.FirstPrefersEarliest | src/lib/value-extractor.ts:102-110 | for `first`, the result is strictly nearer than every passing line before it on the page |
| Extractor.ExtractionPicksFromList | src/lib/value-extractor.ts:38-54 | a successful result is the entry the tie-break picks from the candidate list of the anchor's page |
| Extractor.LastIsListTail | src/lib/value-extractor.ts:52-53 | `last` returns the tail of the candidate list |
| Extractor.LastIsLastAppended | src/lib/value-extractor.ts:102-113 | `last` returns the line appended to the back most recently (which `Candidates.SecondAndLastDependOnLineOrder` shows need not be the farthest) |
| Extractor.NeverReturnsAnchor | src/lib/value-extractor.ts:84-101 | when the anchor's quad has positive width and height, the anchor line itself is never returned |
| Extractor.OwnTextIsFound | src/lib/value-extractor.ts:57-76 | using a line's own text, or its normal form, as the anchor finds an anchor on that line's page or an earlier one |

## Left out

- Query validation, an index of all anchor occurrences, and multi-result output: the messages and types for them exist (src/lib/constants.ts:4-12, src/lib/types.ts:70-78), but no code implements them.
- The `multiline` field of a label query: the engine never reads it.
- `AnchorMapEntry` and `ExtractedValue` (src/lib/types.ts:70-78): declared but unused.
- `src/main.ts`: a demonstration entry point that reads a JSON fixture and prints results. It is I/O only.
- `src/lib/constants.ts`: message strings for the validation that is not implemented.
- `src/lib/value-extractor.test.ts`: it calls methods the extractor does not have and depends on a fixture that is not part of this model.
- Coordinates are real numbers rather than IEEE doubles. NaN, infinities and rounding are not modelled. The engine only compares coordinates and takes minima and maxima.
- Text.LowerSpec: lower-casing is modelled for the ASCII letters A-Z only, not Unicode `toLowerCase`. Trimming uses the full ECMAScript white-space and line-terminator set.
- The corner order top-left, top-right, bottom-right, bottom-left is not enforced. The source never checks it either, and every function here is total on any four corners. `Types.WellWound` states the order, and `Geometry.WellWoundEdges` states what it gives.
- Exceptions are modelled as a `Result` value. The accumulator's in-place `unshift` and `push` are modelled as building new sequences.
- No lemma states that the two copies of the geometry agree. They behave identically, and the model has only one.
- Inputs the Dafny types rule out. A `Polygon` always has exactly four corners, whereas in the source a polygon with fewer points throws a TypeError when `polygon[2]` or `polygon[3]` is read (src/lib/polygon-utils.ts:130-144), and extra points are ignored. Query fields are always members of their enums, whereas in the source a value outside them makes the `switch` statements fall through to `undefined` (src/lib/value-extractor.ts:47-54, 187-202), which surfaces as the "No match" error.
