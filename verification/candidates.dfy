/** The candidate list the extractor builds from the anchor's page in one
    left-to-right pass (src/lib/value-extractor.ts:78-119): a line that
    passes the side and alignment tests goes to the front when its facing
    edge is strictly nearer than the current head's, and to the back
    otherwise. */
module Candidates {
  import opened Types
  import opened Geometry

  /** The filter applied to every line of the page. */
  predicate Accepts(l: Line, anchor: Polygon, q: Query) {
    IsInTargetRange(l.polygon, anchor, q)
  }

  /** The edge of a line that faces the anchor. */
  function Edge(l: Line, q: Query): real {
    AdjacentEdge(l.polygon, q.Position())
  }

  /** What the reducer needs to know about one query: which lines pass the
      filter, and the value and direction by which lines are ranked. */
  datatype Ranking = Ranking(accepts: Line -> bool, key: Line -> real, dir: Direction)

  /** The ranking of the lines around `anchor` for the query `q`. */
  function Scan(anchor: Polygon, q: Query): Ranking {
    Ranking(l => Accepts(l, anchor, q), l => Edge(l, q), q.Position())
  }

  /** Line `l` is strictly nearer to the anchor than line `m`. */
  predicate Nearer(l: Line, m: Line, rk: Ranking) {
    IsCloser(rk.key(l), rk.key(m), rk.dir)
  }

  /** `Nearer` is a strict weak order: irreflexive, asymmetric and
      transitive, a line nearer than `b` is nearer than every line `b` does
      not beat, and lines tied with a common line are tied with each
      other. */
  lemma NearerOrder(a: Line, b: Line, c: Line, rk: Ranking)
    ensures !Nearer(a, a, rk)
    ensures Nearer(a, b, rk) ==> !Nearer(b, a, rk)
    ensures Nearer(a, b, rk) && Nearer(b, c, rk) ==> Nearer(a, c, rk)
    ensures Nearer(a, b, rk) && !Nearer(c, b, rk) ==> Nearer(a, c, rk)
    ensures !Nearer(a, b, rk) && !Nearer(b, a, rk) && !Nearer(b, c, rk) && !Nearer(c, b, rk) ==>
      !Nearer(a, c, rk) && !Nearer(c, a, rk)
  {
    CloserIsStrictOrder(rk.key(a), rk.key(b), rk.key(c), rk.dir);
  }

  /** No element of `s` is strictly nearer than its head. */
  predicate HeadIsNearest(s: seq<Line>, rk: Ranking) {
    |s| > 0 ==> forall k :: 0 <= k < |s| ==> !Nearer(s[k], s[0], rk)
  }

  /** The accepted lines, in page order (the reference the fold is
      compared with). */
  function Accepted(lines: seq<Line>, rk: Ranking): seq<Line> {
    if |lines| == 0 then []
    else
      var init := lines[..|lines| - 1];
      var l := lines[|lines| - 1];
      Accepted(init, rk) + (if rk.accepts(l) then [l] else [])
  }

  /** `Accepted` keeps exactly the accepted lines and nothing else. */
  lemma {:induction false} AcceptedMembers(lines: seq<Line>, rk: Ranking)
    ensures |Accepted(lines, rk)| <= |lines|
    ensures forall l :: l in Accepted(lines, rk) <==> l in lines && rk.accepts(l)
  {
    if |lines| > 0 {
      var init := lines[..|lines| - 1];
      var l := lines[|lines| - 1];
      AcceptedMembers(init, rk);
      assert lines == init + [l];
    }
  }

  /** True when the reducer puts `l` at the front of `acc`. */
  predicate GoesToFront(acc: seq<Line>, l: Line, rk: Ranking) {
    rk.accepts(l) && |acc| > 0 && Nearer(l, acc[0], rk)
  }

  /** One call of the reducer: an accepted line goes in front of the list
      when it is strictly nearer than the head, and behind it otherwise. */
  function Step(acc: seq<Line>, l: Line, rk: Ranking): seq<Line> {
    if rk.accepts(l) then
      if |acc| > 0 && Nearer(l, acc[0], rk) then [l] + acc else acc + [l]
    else acc
  }

  /** A reducer step adds exactly the accepted line, keeps the head
      nearest, and either leaves the list alone, prepends or appends. */
  lemma StepKeepsInvariant(acc: seq<Line>, l: Line, rk: Ranking)
    ensures Step(acc, l, rk) == acc || Step(acc, l, rk) == [l] + acc || Step(acc, l, rk) == acc + [l]
    ensures multiset(Step(acc, l, rk)) ==
      multiset(acc) + (if rk.accepts(l) then multiset{l} else multiset{})
    ensures HeadIsNearest(acc, rk) ==> HeadIsNearest(Step(acc, l, rk), rk)
  {
    if GoesToFront(acc, l, rk) && HeadIsNearest(acc, rk) {
      var r := [l] + acc;
      forall k | 0 <= k < |r|
        ensures !Nearer(r[k], l, rk)
      {
        if k == 0 {
          NearerOrder(l, l, l, rk);
        } else {
          NearerOrder(acc[k - 1], l, acc[0], rk);
        }
      }
    }
  }

  /** The reduction over the page's lines, written as recursion on the
      prefix so that the last line is the last one folded in. */
  function Build(lines: seq<Line>, rk: Ranking): seq<Line> {
    if |lines| == 0 then []
    else Step(Build(lines[..|lines| - 1], rk), lines[|lines| - 1], rk)
  }

  /** The two invariants the reduction keeps: it holds the accepted lines,
      each as often as it occurs on the page, and its head is nearest. */
  lemma {:induction false} BuildInvariant(lines: seq<Line>, rk: Ranking)
    ensures multiset(Build(lines, rk)) == multiset(Accepted(lines, rk))
    ensures HeadIsNearest(Build(lines, rk), rk)
  {
    if |lines| > 0 {
      var init := lines[..|lines| - 1];
      var l := lines[|lines| - 1];
      BuildInvariant(init, rk);
      StepKeepsInvariant(Build(init, rk), l, rk);
    }
  }

  // ---------------------------------------------------------------------
  // The list is a permutation of the accepted lines

  lemma BuildIsPermutation(lines: seq<Line>, rk: Ranking)
    ensures |Build(lines, rk)| == |Accepted(lines, rk)|
    ensures forall l :: l in Build(lines, rk) <==> l in lines && rk.accepts(l)
    ensures forall l :: multiset(Build(lines, rk))[l] == multiset(Accepted(lines, rk))[l]
  {
    var b := Build(lines, rk);
    var a := Accepted(lines, rk);
    BuildInvariant(lines, rk);
    AcceptedMembers(lines, rk);
    assert |b| == |multiset(b)| == |multiset(a)| == |a|;
    forall l
      ensures l in b <==> l in lines && rk.accepts(l)
    {
      assert l in b <==> l in multiset(b);
      assert l in a <==> l in multiset(a);
    }
  }

  /** The list is empty exactly when no line is accepted, and its head is a
      nearest accepted line: no accepted line of the page is strictly
      nearer. */
  lemma HeadIsNearestAccepted(lines: seq<Line>, rk: Ranking)
    ensures |Build(lines, rk)| > 0 <==> exists l :: l in lines && rk.accepts(l)
    ensures |Build(lines, rk)| > 0 ==>
      forall l :: l in lines && rk.accepts(l) ==> !Nearer(l, Build(lines, rk)[0], rk)
  {
    var b := Build(lines, rk);
    BuildIsPermutation(lines, rk);
    BuildInvariant(lines, rk);
    if |b| > 0 {
      assert b[0] in b;
    }
    forall l | l in lines && rk.accepts(l)
      ensures |b| > 0 && !Nearer(l, b[0], rk)
    {
      assert l in b;
      var k :| 0 <= k < |b| && b[k] == l;
    }
  }

  /** Index form of `HeadIsNearestAccepted`. */
  lemma NoAcceptedLineBeatsHead(lines: seq<Line>, rk: Ranking, j: int)
    requires 0 <= j < |lines| && rk.accepts(lines[j])
    ensures |Build(lines, rk)| > 0 && !Nearer(lines[j], Build(lines, rk)[0], rk)
  {
    assert lines[j] in lines;
    HeadIsNearestAccepted(lines, rk);
  }

  /** Ties keep the earliest line: the head is a line that is accepted,
      strictly nearer than every accepted line before it in page order, and
      not beaten by any accepted line of the page. */
  lemma {:induction false} HeadIsEarliestNearest(lines: seq<Line>, rk: Ranking)
    returns (i: nat)
    requires |Build(lines, rk)| > 0
    ensures i < |lines| && lines[i] == Build(lines, rk)[0]
    ensures rk.accepts(lines[i])
    ensures forall j :: 0 <= j < i && rk.accepts(lines[j]) ==> Nearer(lines[i], lines[j], rk)
    ensures forall j :: 0 <= j < |lines| && rk.accepts(lines[j]) ==> !Nearer(lines[j], lines[i], rk)
  {
    var n := |lines| - 1;
    var init := lines[..n];
    var l := lines[n];
    var prev := Build(init, rk);
    assert Build(lines, rk) == Step(prev, l, rk);
    if |prev| == 0 {
      // Nothing before the last line was accepted, so it is the head.
      i := n;
      forall j | 0 <= j < n
        ensures !rk.accepts(lines[j])
      {
        assert init[j] == lines[j];
        if rk.accepts(lines[j]) {
          NoAcceptedLineBeatsHead(init, rk, j);
        }
      }
      NearerOrder(l, l, l, rk);
    } else if GoesToFront(prev, l, rk) {
      i := n;
      forall j | 0 <= j < n && rk.accepts(lines[j])
        ensures Nearer(l, lines[j], rk) && !Nearer(lines[j], l, rk)
      {
        assert init[j] == lines[j];
        NoAcceptedLineBeatsHead(init, rk, j);
        NearerOrder(l, prev[0], lines[j], rk);
        NearerOrder(lines[j], l, prev[0], rk);
      }
      NearerOrder(l, l, l, rk);
    } else {
      var i0 := HeadIsEarliestNearest(init, rk);
      i := i0;
      assert lines[i] == init[i0];
      forall j | 0 <= j < |lines| && rk.accepts(lines[j])
        ensures !Nearer(lines[j], lines[i], rk)
      {
        if j < n {
          assert init[j] == lines[j];
        }
      }
      forall j | 0 <= j < i && rk.accepts(lines[j])
        ensures Nearer(lines[i], lines[j], rk)
      {
        assert init[j] == lines[j];
      }
    }
  }

  // ---------------------------------------------------------------------
  // Shape of the list: front-inserted lines, newest first, then the
  // back-appended lines in page order

  /** The lines the reducer inserted at the front, in page order. */
  function Unshifted(lines: seq<Line>, rk: Ranking): seq<Line> {
    if |lines| == 0 then []
    else
      var init := lines[..|lines| - 1];
      var l := lines[|lines| - 1];
      Unshifted(init, rk) + (if GoesToFront(Build(init, rk), l, rk) then [l] else [])
  }

  /** The lines the reducer appended at the back, in page order. */
  function Pushed(lines: seq<Line>, rk: Ranking): seq<Line> {
    if |lines| == 0 then []
    else
      var init := lines[..|lines| - 1];
      var l := lines[|lines| - 1];
      Pushed(init, rk)
        + (if rk.accepts(l) && !GoesToFront(Build(init, rk), l, rk) then [l] else [])
  }

  function Reverse<T>(s: seq<T>): (r: seq<T>)
    ensures |r| == |s|
  {
    if |s| == 0 then [] else [s[|s| - 1]] + Reverse(s[..|s| - 1])
  }

  lemma ReverseSnoc<T>(s: seq<T>, x: T)
    ensures Reverse(s + [x]) == [x] + Reverse(s)
  {
    assert (s + [x])[..|s|] == s;
  }

  /** The list is the front-inserted lines, most recent first, followed by
      the back-appended lines in page order. */
  lemma {:induction false} BuildShape(lines: seq<Line>, rk: Ranking)
    ensures Build(lines, rk) == Reverse(Unshifted(lines, rk)) + Pushed(lines, rk)
  {
    if |lines| > 0 {
      BuildShape(lines[..|lines| - 1], rk);
      ShapeStep(lines, rk);
    }
  }

  /** One step of `BuildShape`: the shape survives folding in the last
      line. */
  lemma ShapeStep(lines: seq<Line>, rk: Ranking)
    requires |lines| > 0
    requires
      var init := lines[..|lines| - 1];
      Build(init, rk) == Reverse(Unshifted(init, rk)) + Pushed(init, rk)
    ensures Build(lines, rk) == Reverse(Unshifted(lines, rk)) + Pushed(lines, rk)
  {
    var init := lines[..|lines| - 1];
    var l := lines[|lines| - 1];
    var u := Unshifted(init, rk);
    var p := Pushed(init, rk);
    var prev := Build(init, rk);
    if GoesToFront(prev, l, rk) {
      ShapeFront(prev, l, u, p, rk);
      assert Unshifted(lines, rk) == u + [l];
      assert Pushed(lines, rk) == p + [] == p;
    } else if rk.accepts(l) {
      assert Unshifted(lines, rk) == u + [] == u;
      assert Pushed(lines, rk) == p + [l];
    } else {
      assert Unshifted(lines, rk) == u + [] == u;
      assert Pushed(lines, rk) == p + [] == p;
    }
  }

  lemma ShapeFront(prev: seq<Line>, l: Line, u: seq<Line>, p: seq<Line>, rk: Ranking)
    requires prev == Reverse(u) + p
    ensures [l] + prev == Reverse(u + [l]) + p
  {
    ReverseSnoc(u, l);
  }

  /** The first accepted line is always appended (the list is empty at that
      point), and the line appended last is the tail of the list. */
  lemma PushedEnds(lines: seq<Line>, rk: Ranking)
    ensures |Build(lines, rk)| > 0 ==> |Pushed(lines, rk)| > 0
    ensures |Pushed(lines, rk)| > 0 ==>
      var b := Build(lines, rk);
      var p := Pushed(lines, rk);
      |b| >= |p| && b[|b| - 1] == p[|p| - 1]
  {
    BuildShape(lines, rk);
    PushedNonEmpty(lines, rk);
  }

  lemma {:induction false} PushedNonEmpty(lines: seq<Line>, rk: Ranking)
    ensures |Build(lines, rk)| > 0 ==> |Pushed(lines, rk)| > 0
  {
    if |lines| > 0 {
      var init := lines[..|lines| - 1];
      var l := lines[|lines| - 1];
      PushedNonEmpty(init, rk);
      assert Build(lines, rk) == Step(Build(init, rk), l, rk);
    }
  }

  // ---------------------------------------------------------------------
  // Order dependence of the second and last positions

  /** A line whose facing left edge is at `x`, level with the anchor. */
  function Box(text: string, x: real): Line {
    Line(text, Polygon(Point(x, 0.0), Point(x + 0.5, 0.0), Point(x + 0.5, 1.0), Point(x, 1.0)))
  }

  /** Folding a page with one more line at the end is one more reducer
      step. */
  lemma BuildSnoc(init: seq<Line>, l: Line, rk: Ranking)
    ensures Build(init + [l], rk) == Step(Build(init, rk), l, rk)
  {
    assert (init + [l])[..|init|] == init;
  }

  lemma FoldOne(a: Line, rk: Ranking)
    requires rk.accepts(a)
    ensures Build([a], rk) == [a]
  {
    BuildSnoc([], a, rk);
    assert [] + [a] == [a];
  }

  /** Two accepted lines, the second strictly nearer: it goes in front. */
  lemma FoldTwo(a: Line, b: Line, rk: Ranking)
    requires rk.accepts(a) && rk.accepts(b) && Nearer(b, a, rk)
    ensures Build([a, b], rk) == [b, a]
  {
    FoldOne(a, rk);
    BuildSnoc([a], b, rk);
    assert [a] + [b] == [a, b];
  }

  /** Folding three accepted lines whose keys are strictly ordered: `a`
      farther than `c`, `c` farther than `b`. */
  lemma FoldThree(a: Line, b: Line, c: Line, rk: Ranking)
    requires rk.accepts(a) && rk.accepts(b) && rk.accepts(c)
    requires Nearer(b, c, rk) && Nearer(c, a, rk)
    ensures Build([a, b, c], rk) == [b, a, c]
    ensures Build([a, c, b], rk) == [b, c, a]
  {
    NearerOrder(b, c, a, rk);
    NearerOrder(c, b, c, rk);
    FoldTwo(a, b, rk);
    FoldTwo(a, c, rk);
    BuildSnoc([a, b], c, rk);
    BuildSnoc([a, c], b, rk);
    assert [a, b] + [c] == [a, b, c];
    assert [a, c] + [b] == [a, c, b];
  }

  /** Three lines right of an anchor whose right edge is at x = -0.5, with
      facing edges at x = 5, 1 and 3: in the page order A, B, C the list is
      [B, A, C], so the second entry is the farthest line and the last entry
      is not; listing the same lines as A, C, B gives [B, C, A]. */
  lemma SecondAndLastDependOnLineOrder()
    ensures
      var rk := Scan(Box("anchor", -1.0).polygon, Row(Right, Last, "anchor"));
      var a, b, c := Box("A", 5.0), Box("B", 1.0), Box("C", 3.0);
      && Build([a, b, c], rk) == [b, a, c]
      && Build([a, c, b], rk) == [b, c, a]
  {
    var anchor := Box("anchor", -1.0).polygon;
    var q := Row(Right, Last, "anchor");
    var rk := Scan(anchor, q);
    var a, b, c := Box("A", 5.0), Box("B", 1.0), Box("C", 3.0);
    assert Accepts(a, anchor, q) && Accepts(b, anchor, q) && Accepts(c, anchor, q);
    assert Edge(a, q) == 5.0 && Edge(b, q) == 1.0 && Edge(c, q) == 3.0;
    FoldThree(a, b, c, rk);
  }
}
