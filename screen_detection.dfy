/**
  The decision logic of screen detection. The OpenCV front end (grey scale,
  equalisation, filtering, thresholding, edges, closing, contours) and the
  per-contour library calls (contour area, minimum-area rectangle, its box
  points) are not modelled: each contour arrives as a `Candidate` holding
  what those calls return. Modelled are the per-candidate geometry (portrait
  re-orientation, tilt from vertical, aspect ratio), the selection loop, the
  found / not-found outcome, and the ordering of the winner's corners with
  the output width and height.
*/
module ScreenDetection {
  import opened Wrappers
  import opened Pixels

  const TargetAspectRatio: real := 1.78
  const MaxTilt: real := 20.0
  const MinArea: real := 3000.0
  const MinAspectRatio: real := 1.3
  const MaxAspectRatio: real := 2.5

  /** A box point after np.intp is an integer `Pixel`. */
  type Point = Pixel

  /** One contour as the selection loop sees it: its contour area, the width,
      height and angle of its minimum-area rectangle, and that rectangle's
      four box points. */
  datatype Candidate = Candidate(area: real, width: real, height: real, angle: real, box: seq<Point>)

  /** What the library guarantees of a candidate: non-negative sides, four box
      points, and a rectangle that encloses the contour, so its area is at
      least the contour's. */
  predicate WellFormed(c: Candidate)
  {
    0.0 <= c.width && 0.0 <= c.height && c.area <= c.width * c.height && |c.box| == 4
  }

  function Abs(v: real): (r: real)
    ensures 0.0 <= r && (r == v || r == -v)
  {
    if v < 0.0 then -v else v
  }

  /** The rectangle re-oriented so that its longer side is the height. */
  datatype Portrait = Portrait(angle: real, height: real, width: real)

  function ToPortrait(c: Candidate): (p: Portrait)
    ensures p.height >= p.width
    ensures (p.height == c.height && p.width == c.width && p.angle == c.angle)
         || (p.height == c.width && p.width == c.height && p.angle == c.angle + 90.0)
    ensures c.height >= c.width ==> p.angle == c.angle
  {
    if c.height >= c.width then Portrait(c.angle, c.height, c.width)
    else Portrait(c.angle + 90.0, c.width, c.height)
  }

  /** Tilt from vertical: at most one shift by 180 degrees towards zero. */
  function TiltFromVertical(a: real): (t: real)
    ensures t == a || t == a - 180.0 || t == a + 180.0
    ensures -90.0 <= a <= 90.0 ==> t == a
    ensures -270.0 <= a <= 270.0 ==> -90.0 <= t <= 90.0
  {
    if a > 90.0 then a - 180.0
    else if a < -90.0 then a + 180.0
    else a
  }

  /** A candidate the loop measures: it passed the (inclusive) area bound. */
  predicate Measured(c: Candidate) { MinArea <= c.area }

  /** Once past the area bound, the portrait width is positive (the rectangle
      encloses an area of at least 3000), so the aspect ratio is defined. */
  lemma MeasuredWidthPositive(c: Candidate)
    requires WellFormed(c) && Measured(c)
    ensures ToPortrait(c).width > 0.0
  {
    ZeroSideZeroArea(c.width, c.height);
  }

  lemma ZeroSideZeroArea(a: real, b: real)
    ensures a == 0.0 || b == 0.0 ==> a * b == 0.0
  {
  }

  lemma RatioAtLeastOne(h: real, w: real)
    requires 0.0 < w <= h
    ensures h / w >= 1.0
  {
  }

  function AspectRatio(c: Candidate): (r: real)
    requires WellFormed(c) && Measured(c)
    ensures r >= 1.0
  {
    var p := ToPortrait(c);
    MeasuredWidthPositive(c);
    RatioAtLeastOne(p.height, p.width);
    p.height / p.width
  }

  /** The tilt from vertical of the portrait rectangle; any rectangle angle
      in [-180, 180] gives a tilt in [-90, 90]. */
  function Tilt(c: Candidate): (t: real)
    ensures -180.0 <= c.angle <= 180.0 ==> -90.0 <= t <= 90.0
  {
    TiltFromVertical(ToPortrait(c).angle)
  }

  /** The filter of the selection loop: large enough, phone-like proportions, nearly upright. */
  predicate Qualifies(c: Candidate)
    requires WellFormed(c)
  {
    && Measured(c)
    && MinAspectRatio < AspectRatio(c) < MaxAspectRatio
    && Abs(Tilt(c)) <= MaxTilt
  }

  /** The objective the loop minimises. */
  function AspectRatioDiff(c: Candidate): (d: real)
    requires WellFormed(c) && Measured(c)
    ensures 0.0 <= d
    ensures d == 0.0 <==> AspectRatio(c) == TargetAspectRatio
  {
    Abs(AspectRatio(c) - TargetAspectRatio)
  }

  /** The filter without the division: the portrait height lies strictly
      between 1.3 and 2.5 times the portrait width. */
  lemma QualifiesWithoutDivision(c: Candidate)
    requires WellFormed(c)
    ensures Qualifies(c) <==>
      && MinArea <= c.area
      && MinAspectRatio * ToPortrait(c).width < ToPortrait(c).height < MaxAspectRatio * ToPortrait(c).width
      && -MaxTilt <= Tilt(c) <= MaxTilt
  {
    if Measured(c) {
      MeasuredWidthPositive(c);
      RatioBetween(ToPortrait(c).height, ToPortrait(c).width, MinAspectRatio, MaxAspectRatio);
    }
  }

  lemma RatioBetween(h: real, w: real, lo: real, hi: real)
    requires 0.0 < w
    ensures lo < h / w < hi <==> lo * w < h < hi * w
  {
    assert (h / w) * w == h;
    if lo < h / w { assert lo * w < (h / w) * w; }
    if h / w < hi { assert (h / w) * w < hi * w; }
    if lo * w < h { assert lo * w < (h / w) * w; }
    if h < hi * w { assert (h / w) * w < hi * w; }
  }

  predicate AllWellFormed(cs: seq<Candidate>)
  {
    forall i :: 0 <= i < |cs| ==> WellFormed(cs[i])
  }

  /** k is the winner among the first n candidates: it qualifies, no qualifying
      candidate is strictly closer to the target, and every qualifying candidate
      before it is strictly farther (earliest wins ties). */
  predicate IsBestAmong(cs: seq<Candidate>, n: nat, k: nat)
    requires AllWellFormed(cs) && n <= |cs|
  {
    && k < n
    && Qualifies(cs[k])
    && (forall j :: 0 <= j < n && Qualifies(cs[j]) ==> AspectRatioDiff(cs[k]) <= AspectRatioDiff(cs[j]))
    && (forall j :: 0 <= j < k && Qualifies(cs[j]) ==> AspectRatioDiff(cs[k]) < AspectRatioDiff(cs[j]))
  }

  predicate IsBest(cs: seq<Candidate>, k: nat)
    requires AllWellFormed(cs)
  {
    IsBestAmong(cs, |cs|, k)
  }

  /** The candidate loop: the index of the winning candidate (the source keeps
      that candidate's box points), or None when no candidate qualifies. */
  method SelectScreen(cs: seq<Candidate>) returns (best: Option<nat>)
    requires AllWellFormed(cs)
    ensures best.None? <==> forall j :: 0 <= j < |cs| ==> !Qualifies(cs[j])
    ensures best.Some? ==> IsBest(cs, best.value)
  {
    best := None;
    var minDiff: real := 0.0;  // stands for float("inf") while best is None
    for i := 0 to |cs|
      invariant best.None? <==> forall j :: 0 <= j < i ==> !Qualifies(cs[j])
      invariant best.Some? ==> IsBestAmong(cs, i, best.value) && minDiff == AspectRatioDiff(cs[best.value])
    {
      var c := cs[i];
      if c.area < MinArea {
        continue;
      }
      var p := ToPortrait(c);
      var tilt := TiltFromVertical(p.angle);
      MeasuredWidthPositive(c);
      var aspectRatio := p.height / p.width;
      if MinAspectRatio < aspectRatio < MaxAspectRatio && Abs(tilt) <= MaxTilt {
        var diff := Abs(aspectRatio - TargetAspectRatio);
        if best.None? || diff < minDiff {
          minDiff := diff;
          best := Some(i);
        }
      }
    }
  }

  /** At most one candidate is the winner. */
  lemma BestIsUnique(cs: seq<Candidate>, k1: nat, k2: nat)
    requires AllWellFormed(cs)
    requires IsBest(cs, k1) && IsBest(cs, k2)
    ensures k1 == k2
  {
  }

  /** Candidates below the area bound never win: one qualifying candidate among
      small decoys is the winner. */
  lemma DecoysBelowMinAreaIgnored(cs: seq<Candidate>, k: nat)
    requires AllWellFormed(cs) && k < |cs| && Qualifies(cs[k])
    requires forall j :: 0 <= j < |cs| && j != k ==> cs[j].area < MinArea
    ensures IsBest(cs, k)
  {
  }

  /** The area bound is inclusive: a 40 x 75 upright rectangle whose contour
      has area exactly 3000 qualifies. */
  lemma AreaBoundIsInclusive(box: seq<Point>)
    requires |box| == 4
    ensures WellFormed(Candidate(3000.0, 40.0, 75.0, 0.0, box))
    ensures Qualifies(Candidate(3000.0, 40.0, 75.0, 0.0, box))
    ensures !Qualifies(Candidate(2999.0, 40.0, 75.0, 0.0, box))
  {
    assert AspectRatio(Candidate(3000.0, 40.0, 75.0, 0.0, box)) == 1.875;
  }

  // ---------------------------------------------------------------------
  // Corner ordering and output size

  /** The winner's corners in the order top-left, top-right, bottom-right, bottom-left. */
  datatype Corners = Corners(tl: Point, tr: Point, br: Point, bl: Point)

  function CornerSeq(c: Corners): seq<Point> { [c.tl, c.tr, c.br, c.bl] }

  predicate SortedByX(s: seq<Point>)
  {
    forall i, j :: 0 <= i < j < |s| ==> s[i].x <= s[j].x
  }

  /** Insert p before the first element whose x is not smaller (so p, which
      came earlier, stays before equal keys). */
  function InsertByX(p: Point, s: seq<Point>): (r: seq<Point>)
    requires SortedByX(s)
    ensures |r| == |s| + 1
    ensures multiset(r) == multiset(s) + multiset{p}
    ensures SortedByX(r)
  {
    if |s| == 0 || p.x <= s[0].x then [p] + s
    else
      var t := InsertByX(p, s[1..]);
      assert multiset(s) == multiset{s[0]} + multiset(s[1..]) by {
        assert s == [s[0]] + s[1..];
      }
      assert forall k :: 0 <= k < |t| ==> s[0].x <= t[k].x by {
        forall k | 0 <= k < |t| ensures s[0].x <= t[k].x {
          assert t[k] in multiset(t);
          assert t[k] == p || t[k] in multiset(s[1..]);
          if t[k] != p {
            var m :| 0 <= m < |s[1..]| && s[1..][m] == t[k];
            assert s[m + 1] == t[k];
          }
        }
      }
      [s[0]] + t
  }

  /** np.argsort on the x column, as a stable insertion sort. */
  function SortByX(s: seq<Point>): (r: seq<Point>)
    ensures |r| == |s|
    ensures multiset(r) == multiset(s)
    ensures SortedByX(r)
  {
    if |s| == 0 then []
    else
      assert multiset(s) == multiset{s[0]} + multiset(s[1..]) by {
        assert s == [s[0]] + s[1..];
      }
      InsertByX(s[0], SortByX(s[1..]))
  }

  /** np.argsort of a pair on the y column: the second point goes first only
      when its y is strictly smaller. */
  function OrderPairByY(a: Point, b: Point): (r: (Point, Point))
    ensures r == (a, b) || r == (b, a)
    ensures r.0.y <= r.1.y
    ensures a.x <= b.x ==> YThenX(r.0, r.1)
  {
    if b.y < a.y then (b, a) else (a, b)
  }

  /** p precedes q by y, ties broken by x. */
  predicate YThenX(p: Point, q: Point)
  {
    p.y < q.y || (p.y == q.y && p.x <= q.x)
  }

  /** The ordering constraints on a labelling: TL and BL lie left of TR and
      BR, and each side runs top to bottom (by y, ties by x). */
  predicate Labelled(c: Corners)
  {
    c.tl.x <= c.tr.x && c.tl.x <= c.br.x && c.bl.x <= c.tr.x && c.bl.x <= c.br.x
    && YThenX(c.tl, c.bl) && YThenX(c.tr, c.br)
  }

  /** Sort the four points on x, split into the two left and the two right
      points, and order each half on y. */
  function OrderCorners(box: seq<Point>): (c: Corners)
    requires |box| == 4
    ensures multiset(CornerSeq(c)) == multiset(box)
    ensures Labelled(c)
  {
    var s := SortByX(box);
    var left := OrderPairByY(s[0], s[1]);
    var right := OrderPairByY(s[2], s[3]);
    var c := Corners(left.0, right.0, right.1, left.1);
    assert s == [s[0], s[1], s[2], s[3]];
    HalvesPermute(s[0], s[1], s[2], s[3], left, right);
    c
  }

  /** The multiset of a four-point sequence, as a union of singletons. */
  lemma FourPointMultiset(a: Point, b: Point, c: Point, d: Point)
    ensures multiset([a, b, c, d]) == multiset{a} + multiset{b} + multiset{c} + multiset{d}
  {
    calc {
      multiset([a, b, c, d]);
      { assert [a, b, c, d] == [a, b, c] + [d]; }
      multiset([a, b, c]) + multiset([d]);
      { assert [a, b, c] == [a, b] + [c]; }
      multiset([a, b]) + multiset([c]) + multiset([d]);
      { assert [a, b] == [a] + [b]; }
      multiset([a]) + multiset([b]) + multiset([c]) + multiset([d]);
    }
  }

  /** Reordering within each half keeps the four points. */
  lemma HalvesPermute(a: Point, b: Point, c: Point, d: Point, left: (Point, Point), right: (Point, Point))
    requires left == (a, b) || left == (b, a)
    requires right == (c, d) || right == (d, c)
    ensures multiset([left.0, right.0, right.1, left.1]) == multiset([a, b, c, d])
  {
    FourPointMultiset(a, b, c, d);
    FourPointMultiset(left.0, right.0, right.1, left.1);
  }

  /** Whatever order the four box points arrive in, they get the same labels,
      provided the 2nd and 3rd smallest x differ (so the left/right split is
      decided by x alone). */
  lemma OrderCornersIgnoresInputOrder(b1: seq<Point>, b2: seq<Point>)
    requires |b1| == 4 && |b2| == 4 && multiset(b1) == multiset(b2)
    requires SortByX(b1)[1].x < SortByX(b1)[2].x
    ensures OrderCorners(b1) == OrderCorners(b2)
  {
    OrderCornersSplitsStrictly(b1);
    OrderCornersLabels(b1);
    OrderCornersLabels(b2);
    CornersDetermined(OrderCorners(b1), OrderCorners(b2));
  }

  lemma OrderCornersLabels(b: seq<Point>)
    requires |b| == 4
    ensures Labelled(OrderCorners(b)) && multiset(CornerSeq(OrderCorners(b))) == multiset(b)
  {
  }

  lemma OrderCornersSplitsStrictly(b: seq<Point>)
    requires |b| == 4 && SortByX(b)[1].x < SortByX(b)[2].x
    ensures StrictSplit(OrderCorners(b))
  {
    OrderCornersUnfolds(b);
    SortedHalves(SortByX(b));
    SplitOfSorted(SortByX(b)[0], SortByX(b)[1], SortByX(b)[2], SortByX(b)[3]);
  }

  /** The two left corners lie strictly left of the two right ones. */
  predicate StrictSplit(c: Corners)
  {
    c.tl.x < c.tr.x && c.tl.x < c.br.x && c.bl.x < c.tr.x && c.bl.x < c.br.x
  }

  /** With a tie in x at the split the labels do depend on the input order.
      A diamond with top t, left l, right r and bottom b (t and b share their
      x), listed from the top or from the bottom, is labelled two ways:
      (5, 0), (0, 5), (10, 5), (5, 10) is one such diamond. */
  lemma TieAtSplitDependsOnOrder(t: Point, l: Point, r: Point, b: Point)
    requires l.x < t.x == b.x < r.x
    requires t.y < l.y < b.y && t.y < r.y < b.y
    ensures multiset([t, l, r, b]) == multiset([b, l, r, t])
    ensures OrderCorners([t, l, r, b]) == Corners(t, r, b, l)
    ensures OrderCorners([b, l, r, t]) == Corners(l, t, r, b)
  {
    EndsSwapped(t, l, r, b);
    DiamondLabelsFromTop(t, l, r, b);
    DiamondLabelsFromBottom(t, l, r, b);
  }

  /** Swapping the first and last of four points keeps the multiset. */
  lemma EndsSwapped(a: Point, b: Point, c: Point, d: Point)
    ensures multiset([a, b, c, d]) == multiset([d, b, c, a])
  {
    FourPointMultiset(a, b, c, d);
    FourPointMultiset(d, b, c, a);
    var m1 := multiset{a} + multiset{b} + multiset{c} + multiset{d};
    var m2 := multiset{d} + multiset{b} + multiset{c} + multiset{a};
    forall q ensures m1[q] == m2[q] { }
    assert m1 == m2;
  }

  lemma DiamondLabelsFromTop(t: Point, l: Point, r: Point, b: Point)
    requires l.x < t.x == b.x < r.x
    requires t.y < l.y < b.y && t.y < r.y < b.y
    ensures OrderCorners([t, l, r, b]) == Corners(t, r, b, l)
  {
    DiamondFromTop(t, l, r, b);
    OrderCornersOfSorted([t, l, r, b], l, t, b, r);
  }

  lemma DiamondLabelsFromBottom(t: Point, l: Point, r: Point, b: Point)
    requires l.x < t.x == b.x < r.x
    requires t.y < l.y < b.y && t.y < r.y < b.y
    ensures OrderCorners([b, l, r, t]) == Corners(l, t, r, b)
  {
    DiamondFromBottom(t, l, r, b);
    OrderCornersOfSorted([b, l, r, t], l, b, t, r);
  }

  lemma DiamondFromTop(t: Point, l: Point, r: Point, b: Point)
    requires l.x < t.x == b.x < r.x
    ensures SortByX([t, l, r, b]) == [l, t, b, r]
  {
    SortPairSwaps(r, b);
    SortThreeFrontStays(l, r, b);
    SortFourSecondFirst(t, l, r, b);
  }

  lemma DiamondFromBottom(t: Point, l: Point, r: Point, b: Point)
    requires l.x < t.x == b.x < r.x
    ensures SortByX([b, l, r, t]) == [l, b, t, r]
  {
    SortPairSwaps(r, t);
    SortThreeFrontStays(l, r, t);
    SortFourSecondFirst(b, l, r, t);
  }

  lemma SortPairSwaps(p: Point, q: Point)
    requires q.x < p.x
    ensures SortByX([p, q]) == [q, p]
  {
    assert [p, q][1..] == [q];
    assert SortByX([q]) == [q];
  }

  lemma SortThreeFrontStays(p: Point, q: Point, r: Point)
    requires SortByX([q, r]) == [r, q] && p.x <= r.x
    ensures SortByX([p, q, r]) == [p, r, q]
  {
    assert [p, q, r][1..] == [q, r];
  }

  lemma SortFourSecondFirst(p: Point, q: Point, r: Point, s: Point)
    requires SortByX([q, r, s]) == [q, s, r] && q.x < p.x <= s.x
    ensures SortByX([p, q, r, s]) == [q, p, s, r]
  {
    assert SortedByX([q, s, r]);
    assert [q, s, r][1..] == [s, r];
    assert SortedByX([s, r]);
    calc {
      SortByX([p, q, r, s]);
      { SortUnfolds([p, q, r, s]); assert [p, q, r, s][1..] == [q, r, s]; }
      InsertByX(p, SortByX([q, r, s]));
      InsertByX(p, [q, s, r]);
      { InsertPassesFirst(p, [q, s, r]); }
      [q] + InsertByX(p, [s, r]);
      { InsertStaysFirst(p, [s, r]); }
      [q] + ([p] + [s, r]);
      { ConsFour(q, p, s, r); }
      [q, p, s, r];
    }
  }

  lemma ConsFour(a: Point, b: Point, c: Point, d: Point)
    ensures [a] + ([b] + [c, d]) == [a, b, c, d]
  {
  }

  lemma SortUnfolds(s: seq<Point>)
    requires 0 < |s|
    ensures SortByX(s) == InsertByX(s[0], SortByX(s[1..]))
  {
  }

  lemma InsertStaysFirst(p: Point, s: seq<Point>)
    requires SortedByX(s) && 0 < |s| && p.x <= s[0].x
    ensures InsertByX(p, s) == [p] + s
  {
  }

  lemma InsertPassesFirst(p: Point, s: seq<Point>)
    requires SortedByX(s) && 0 < |s| && s[0].x < p.x
    ensures InsertByX(p, s) == [s[0]] + InsertByX(p, s[1..])
  {
  }

  lemma OrderCornersUnfolds(b: seq<Point>)
    requires |b| == 4
    ensures var s := SortByX(b);
      OrderCorners(b) == Corners(OrderPairByY(s[0], s[1]).0, OrderPairByY(s[2], s[3]).0, OrderPairByY(s[2], s[3]).1, OrderPairByY(s[0], s[1]).1)
  {
  }

  lemma SortedHalves(s: seq<Point>)
    requires |s| == 4 && SortedByX(s)
    ensures s[0].x <= s[1].x && s[2].x <= s[3].x
  {
  }

  /** OrderCorners once the x-sort is known. */
  lemma OrderCornersOfSorted(box: seq<Point>, a: Point, b: Point, c: Point, d: Point)
    requires |box| == 4 && SortByX(box) == [a, b, c, d]
    ensures OrderCorners(box)
      == Corners(OrderPairByY(a, b).0, OrderPairByY(c, d).0, OrderPairByY(c, d).1, OrderPairByY(a, b).1)
  {
  }

  /** Ordering each half of an x-sorted quadruple by y keeps the halves
      apart when the middle two x differ. */
  lemma SplitOfSorted(a: Point, b: Point, c: Point, d: Point)
    requires a.x <= b.x < c.x <= d.x
    ensures StrictSplit(Corners(OrderPairByY(a, b).0, OrderPairByY(c, d).0, OrderPairByY(c, d).1, OrderPairByY(a, b).1))
  {
  }

  /** Two labellings of the same four points that both meet the ordering
      constraints agree, once one of them splits left from right strictly. */
  lemma CornersDetermined(c1: Corners, c2: Corners)
    requires multiset(CornerSeq(c1)) == multiset(CornerSeq(c2))
    requires Labelled(c1) && Labelled(c2) && StrictSplit(c1)
    ensures c1 == c2
  {
    FourPointMultiset(c1.tl, c1.tr, c1.br, c1.bl);
    FourPointMultiset(c2.tl, c2.tr, c2.br, c2.bl);
    HalvesDetermined(c1.tl, c1.bl, c1.tr, c1.br, c2.tl, c2.bl, c2.tr, c2.br);
    PairDetermined(c1.tl, c1.bl, c2.tl, c2.bl);
    PairDetermined(c1.tr, c1.br, c2.tr, c2.br);
  }

  /** Of four points u, v, w, z that are p, q, r, s in some order, three cannot
      all avoid both r and s. */
  lemma NotThreeOutsidePair(p: Point, q: Point, r: Point, s: Point, u: Point, v: Point, w: Point, z: Point)
    requires multiset{p} + multiset{q} + multiset{r} + multiset{s} == multiset{u} + multiset{v} + multiset{w} + multiset{z}
    ensures r == u || r == v || r == w || s == u || s == v || s == w
  {
    var m := multiset{p} + multiset{q} + multiset{r} + multiset{s};
    var m2 := multiset{u} + multiset{v} + multiset{w} + multiset{z};
    assert m[u] == m2[u] && m[v] == m2[v] && m[w] == m2[w];
  }

  /** When the first two of four points lie strictly left of the other two, any
      relabelling whose left pair is not right of its right pair has the same
      left pair and the same right pair. */
  lemma HalvesDetermined(a: Point, b: Point, c: Point, d: Point, a2: Point, b2: Point, c2: Point, d2: Point)
    requires multiset{a} + multiset{c} + multiset{d} + multiset{b} == multiset{a2} + multiset{c2} + multiset{d2} + multiset{b2}
    requires a.x < c.x && a.x < d.x && b.x < c.x && b.x < d.x
    requires a2.x <= c2.x && a2.x <= d2.x && b2.x <= c2.x && b2.x <= d2.x
    ensures multiset{a} + multiset{b} == multiset{a2} + multiset{b2}
    ensures multiset{c} + multiset{d} == multiset{c2} + multiset{d2}
  {
    var t := if c.x < d.x then c.x else d.x;
    var m, m2 := multiset{a} + multiset{c} + multiset{d} + multiset{b}, multiset{a2} + multiset{c2} + multiset{d2} + multiset{b2};
    assert m == multiset{c} + multiset{d} + multiset{a} + multiset{b};
    assert m == multiset{a} + multiset{b} + multiset{c} + multiset{d};
    assert m2 == multiset{b2} + multiset{c2} + multiset{d2} + multiset{a2};
    assert m2 == multiset{a2} + multiset{b2} + multiset{c2} + multiset{d2};
    assert m2 == multiset{a2} + multiset{b2} + multiset{d2} + multiset{c2};
    if t <= a2.x { NotThreeOutsidePair(c, d, a, b, a2, c2, d2, b2); }
    if t <= b2.x { NotThreeOutsidePair(c, d, a, b, b2, c2, d2, a2); }
    if c2.x < t { NotThreeOutsidePair(a, b, c, d, a2, b2, c2, d2); }
    if d2.x < t { NotThreeOutsidePair(a, b, c, d, a2, b2, d2, c2); }
    var l, l2 := multiset{a} + multiset{b}, multiset{a2} + multiset{b2};
    var r, r2 := multiset{c} + multiset{d}, multiset{c2} + multiset{d2};
    forall q ensures l[q] == l2[q] && r[q] == r2[q] {
      assert m[q] == m2[q];
    }
    assert l == l2;
    assert r == r2;
  }

  /** Two points are put in YThenX order in only one way. */
  lemma PairDetermined(p: Point, q: Point, p2: Point, q2: Point)
    requires multiset{p} + multiset{q} == multiset{p2} + multiset{q2}
    requires YThenX(p, q) && YThenX(p2, q2)
    ensures p == p2 && q == q2
  {
    var m, m2 := multiset{p} + multiset{q}, multiset{p2} + multiset{q2};
    assert m[p] == m2[p] && m[q] == m2[q] && m[p2] == m2[p2];
  }

  /** The squared length of the segment from a to b. */
  function SquaredDistance(a: Point, b: Point): nat
  {
    (a.x - b.x) * (a.x - b.x) + (a.y - b.y) * (a.y - b.y)
  }

  /** int(sqrt(n)): the largest r with r * r <= n. */
  function IntSqrt(n: nat): (r: nat)
    ensures r * r <= n < (r + 1) * (r + 1)
  {
    if n == 0 then 0
    else
      var r := IntSqrt(n - 1);
      if (r + 1) * (r + 1) <= n then r + 1 else r
  }

  function Max(a: int, b: int): int { if a < b then b else a }

  lemma SquareMonotone(x: nat, y: nat)
    requires x <= y
    ensures x * x <= y * y
  {
    assert x * x <= x * y;
    assert x * y <= y * y;
  }

  lemma IntSqrtMonotone(a: nat, b: nat)
    requires a <= b
    ensures IntSqrt(a) <= IntSqrt(b)
  {
    var ra, rb := IntSqrt(a), IntSqrt(b);
    if rb + 1 <= ra {
      SquareMonotone(rb + 1, ra);
      assert false;
    }
  }

  /** Truncating the larger square root is the truncated root of the larger square. */
  lemma MaxOfIntSqrt(a: nat, b: nat)
    ensures Max(IntSqrt(a), IntSqrt(b)) == IntSqrt(Max(a, b))
  {
    if a <= b { IntSqrtMonotone(a, b); } else { IntSqrtMonotone(b, a); }
  }

  /** int(max(|br - bl|, |tr - tl|)): the longer horizontal edge, truncated. */
  function OutputWidth(c: Corners): (w: nat)
    ensures var e := Max(SquaredDistance(c.br, c.bl), SquaredDistance(c.tr, c.tl));
      w * w <= e < (w + 1) * (w + 1)
  {
    MaxOfIntSqrt(SquaredDistance(c.br, c.bl), SquaredDistance(c.tr, c.tl));
    Max(IntSqrt(SquaredDistance(c.br, c.bl)), IntSqrt(SquaredDistance(c.tr, c.tl)))
  }

  /** int(max(|tr - br|, |tl - bl|)): the longer vertical edge, truncated. */
  function OutputHeight(c: Corners): (h: nat)
    ensures var e := Max(SquaredDistance(c.tr, c.br), SquaredDistance(c.tl, c.bl));
      h * h <= e < (h + 1) * (h + 1)
  {
    MaxOfIntSqrt(SquaredDistance(c.tr, c.br), SquaredDistance(c.tl, c.bl));
    Max(IntSqrt(SquaredDistance(c.tr, c.br)), IntSqrt(SquaredDistance(c.tl, c.bl)))
  }

  /** What the perspective transform is given: the ordered corners and the output size. */
  datatype Screen = Screen(corners: Corners, width: nat, height: nat)

  /** The corners and output size handed to the perspective warp. */
  function Rectify(box: seq<Point>): (r: Screen)
    requires |box| == 4
    ensures r.corners == OrderCorners(box) && Labelled(r.corners)
    ensures multiset(CornerSeq(r.corners)) == multiset(box)
    ensures var c := r.corners;
      r.width * r.width <= Max(SquaredDistance(c.br, c.bl), SquaredDistance(c.tr, c.tl)) < (r.width + 1) * (r.width + 1)
    ensures var c := r.corners;
      r.height * r.height <= Max(SquaredDistance(c.tr, c.br), SquaredDistance(c.tl, c.bl)) < (r.height + 1) * (r.height + 1)
  {
    var c := OrderCorners(box);
    Screen(c, OutputWidth(c), OutputHeight(c))
  }

  /** screen_detection on the candidate list: Some(screen) where the source
      returns True after warping the winner's quad, None where it returns False. */
  method DetectScreen(cs: seq<Candidate>) returns (screen: Option<Screen>)
    requires AllWellFormed(cs)
    ensures screen.None? <==> forall j :: 0 <= j < |cs| ==> !Qualifies(cs[j])
    ensures screen.Some? ==> exists k: nat :: IsBest(cs, k) && screen.value == Rectify(cs[k].box)
  {
    var best := SelectScreen(cs);
    match best
    case None =>
      screen := None;
    case Some(k) =>
      screen := Some(Rectify(cs[k].box));
  }

  /** The four corners of an upright W x H rectangle with top-left corner (x0, y0). */
  function UprightBox(x0: int, y0: int, w: nat, h: nat): seq<Point>
  {
    [Pixel(x0, y0), Pixel(x0 + w, y0), Pixel(x0 + w, y0 + h), Pixel(x0, y0 + h)]
  }

  /** An upright W x H rectangle, its box points given in any order, gets its
      corners labelled as drawn and an output size of exactly W x H. */
  lemma UprightRectangleRoundTrip(box: seq<Point>, x0: int, y0: int, w: nat, h: nat)
    requires 0 < w && 0 < h
    requires |box| == 4 && multiset(box) == multiset(UprightBox(x0, y0, w, h))
    ensures OrderCorners(box) == Corners(Pixel(x0, y0), Pixel(x0 + w, y0), Pixel(x0 + w, y0 + h), Pixel(x0, y0 + h))
    ensures Rectify(box).width == w && Rectify(box).height == h
  {
    var c := OrderCorners(box);
    var rect := UprightBox(x0, y0, w, h);
    SameMembers(CornerSeq(c), rect);
    UprightLabels(c, x0, y0, w, h);
    UprightSize(x0, y0, w, h);
  }

  lemma UprightSize(x0: int, y0: int, w: nat, h: nat)
    ensures var c := Corners(Pixel(x0, y0), Pixel(x0 + w, y0), Pixel(x0 + w, y0 + h), Pixel(x0, y0 + h));
      OutputWidth(c) == w && OutputHeight(c) == h
  {
    var c := Corners(Pixel(x0, y0), Pixel(x0 + w, y0), Pixel(x0 + w, y0 + h), Pixel(x0, y0 + h));
    assert SquaredDistance(c.br, c.bl) == w * w == SquaredDistance(c.tr, c.tl);
    assert SquaredDistance(c.tr, c.br) == h * h == SquaredDistance(c.tl, c.bl);
    IntSqrtOfSquare(w);
    IntSqrtOfSquare(h);
  }

  lemma SameMembers(s: seq<Point>, t: seq<Point>)
    requires multiset(s) == multiset(t)
    ensures forall q :: q in s <==> q in t
  {
    forall q ensures q in s <==> q in t {
      assert q in s <==> q in multiset(s);
      assert q in t <==> q in multiset(t);
    }
  }

  /** Which ordered labelling of an upright rectangle's corners meets the ordering constraints. */
  lemma UprightLabels(c: Corners, x0: int, y0: int, w: nat, h: nat)
    requires 0 < w && 0 < h
    requires forall q :: q in CornerSeq(c) <==> q in UprightBox(x0, y0, w, h)
    requires Labelled(c)
    ensures c == Corners(Pixel(x0, y0), Pixel(x0 + w, y0), Pixel(x0 + w, y0 + h), Pixel(x0, y0 + h))
  {
    var rect := UprightBox(x0, y0, w, h);
    assert c.tl in CornerSeq(c) && c.tr in CornerSeq(c) && c.br in CornerSeq(c) && c.bl in CornerSeq(c);
    assert rect[0] in rect && rect[1] in rect && rect[2] in rect && rect[3] in rect;
  }

  lemma IntSqrtOfSquare(n: nat)
    ensures IntSqrt(n * n) == n
  {
    var r := IntSqrt(n * n);
    if r < n {
      SquareMonotone(r + 1, n);
    } else if n < r {
      SquareMonotone(n + 1, r);
    }
  }
}
