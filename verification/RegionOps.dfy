/** The region operations as functions on region values, what each of them means as a set of
    points, and what every run of them keeps (libfreerdp/codec/region.c). */
module RegionOps {
  import opened Basics
  import opened RegionRects
  import opened RegionUnion
  import opened RegionSimplify

  /** region16_union_rect. */
  function UnionRect(src: RegionValue, rect: Rect): RegionValue {
    if src.rects == [] then RegionValue(rect, [rect])
    else RegionValue(UnionExtents(src.extents, rect), Simplify(UnionRaw(src, rect)))
  }

  /** rectangles_intersection: the common part, which is empty when the rectangles are disjoint. */
  function Common(a: Rect, b: Rect): Rect {
    Rect(Max(a.left, b.left), Max(a.top, b.top), Min(a.right, b.right), Min(a.bottom, b.bottom))
  }

  /** The scan of region16_intersect_rect, which stops at the first rectangle below rect. */
  function ClipAll(rs: seq<Rect>, rect: Rect): seq<Rect> {
    if rs == [] || rect.bottom <= rs[0].top then [] else
      (if Common(rs[0], rect).NonEmpty() then [Common(rs[0], rect)] else []) + ClipAll(rs[1..], rect)
  }

  predicate IsEmptyRect(r: Rect) {
    r.left == r.right || r.top == r.bottom
  }

  /** How the extents grow by one clipped rectangle. */
  function GrowBox(e: Rect, c: Rect): Rect {
    if IsEmptyRect(e) then c
    else Rect(Min(c.left, e.left), Min(c.top, e.top), Max(c.right, e.right), Max(c.bottom, e.bottom))
  }

  function BoxOf(rs: seq<Rect>): Rect {
    if rs == [] then ZERO_RECT else GrowBox(BoxOf(rs[..|rs| - 1]), rs[|rs| - 1])
  }

  /** region16_intersect_rect. */
  function IntersectRect(src: RegionValue, rect: Rect): RegionValue {
    if src.rects == [] then EMPTY_REGION
    else if |src.rects| == 1 then
      var c := Common(src.extents, rect);
      if c.NonEmpty() then UnionRect(EMPTY_REGION, c) else EMPTY_REGION
    else
      var items := ClipAll(src.rects, rect);
      RegionValue(BoxOf(items), Simplify(items))
  }

  /** The scan of region16_intersects_rect. */
  predicate AnyMeets(rs: seq<Rect>, rect: Rect) {
    rs != [] && rect.bottom > rs[0].top && (Common(rs[0], rect).NonEmpty() || AnyMeets(rs[1..], rect))
  }

  predicate IntersectsRect(src: RegionValue, rect: Rect) {
    && src.rects != []
    && Common(src.extents, rect).NonEmpty()
    && (|src.rects| == 1 || AnyMeets(src.rects, rect))
  }

  /** What every operation keeps: banded rectangles that are fully coalesced, and tight extents. */
  ghost predicate WellFormed(v: RegionValue) {
    Banded(v.rects) && Coalesced(v.rects) && TightBox(v.extents, v.rects)
  }

  // ----- the bounding box, in terms of points

  ghost predicate InColumn(rs: seq<Rect>, x: int) {
    exists y :: Covers(rs, x, y)
  }

  ghost predicate InRow(rs: seq<Rect>, y: int) {
    exists x :: Covers(rs, x, y)
  }

  ghost predicate PointBox(e: Rect, rs: seq<Rect>) {
    && (forall x, y :: Covers(rs, x, y) ==> e.Has(x, y))
    && InColumn(rs, e.left) && InColumn(rs, e.right - 1)
    && InRow(rs, e.top) && InRow(rs, e.bottom - 1)
  }

  lemma TightIsPointBox(e: Rect, rs: seq<Rect>)
    requires NonEmptyAll(rs) && rs != []
    ensures TightBox(e, rs) <==> PointBox(e, rs)
  {
    if TightBox(e, rs) { TightGivesPoints(e, rs); }
    if PointBox(e, rs) { PointsGiveTight(e, rs); }
  }

  lemma Corners(rs: seq<Rect>, r: Rect)
    requires NonEmptyAll(rs) && r in rs
    ensures Covers(rs, r.left, r.top) && Covers(rs, r.right - 1, r.bottom - 1)
  {
    var i :| 0 <= i < |rs| && rs[i] == r;
    assert CoversAt(rs, i, rs[i].left, rs[i].top);
    assert CoversAt(rs, i, rs[i].right - 1, rs[i].bottom - 1);
  }

  lemma TightGivesPoints(e: Rect, rs: seq<Rect>)
    requires NonEmptyAll(rs) && rs != [] && TightBox(e, rs)
    ensures PointBox(e, rs)
  {
    var l :| l in rs && l.left == e.left;
    Corners(rs, l);
    var t :| t in rs && t.top == e.top;
    Corners(rs, t);
    var r :| r in rs && r.right == e.right;
    Corners(rs, r);
    var b :| b in rs && b.bottom == e.bottom;
    Corners(rs, b);
    forall x, y | Covers(rs, x, y)
      ensures e.Has(x, y)
    {
      var i :| CoversAt(rs, i, x, y);
      assert rs[i] in rs;
    }
  }

  lemma PointsGiveTight(e: Rect, rs: seq<Rect>)
    requires NonEmptyAll(rs) && rs != [] && PointBox(e, rs)
    ensures TightBox(e, rs)
  {
    forall r | r in rs
      ensures e.left <= r.left && e.top <= r.top && r.right <= e.right && r.bottom <= e.bottom
    {
      Corners(rs, r);
    }
    var y1 :| Covers(rs, e.left, y1);
    var i1 :| CoversAt(rs, i1, e.left, y1);
    assert rs[i1] in rs;
    var y2 :| Covers(rs, e.right - 1, y2);
    var i2 :| CoversAt(rs, i2, e.right - 1, y2);
    assert rs[i2] in rs;
    var x1 :| Covers(rs, x1, e.top);
    var i3 :| CoversAt(rs, i3, x1, e.top);
    assert rs[i3] in rs;
    var x2 :| Covers(rs, x2, e.bottom - 1);
    var i4 :| CoversAt(rs, i4, x2, e.bottom - 1);
    assert rs[i4] in rs;
  }

  // ----- union

  lemma SingleWellFormed(rect: Rect)
    requires rect.NonEmpty()
    ensures WellFormed(RegionValue(rect, [rect]))
    ensures Points([rect]) == RectPoints(rect)
  {
    assert rect in [rect];
    OneBandCoalesced([rect]);
    forall x, y
      ensures Covers([rect], x, y) <==> rect.Has(x, y)
    {
      OneRect(rect, x, y);
    }
  }

  /** A union keeps a region well formed and adds exactly the points of the rectangle. */
  lemma UnionIsUnion(src: RegionValue, rect: Rect)
    requires WellFormed(src) && rect.NonEmpty()
    ensures WellFormed(UnionRect(src, rect))
    ensures Points(UnionRect(src, rect).rects) == Points(src.rects) + RectPoints(rect)
  {
    var out := UnionRect(src, rect);
    if src.rects == [] {
      SingleWellFormed(rect);
    } else {
      forall x, y
        ensures Covers(out.rects, x, y) <==> Covers(src.rects, x, y) || rect.Has(x, y)
      {
        UnionRawPoints(src, rect, x, y);
        SimplifyPoints(UnionRaw(src, rect), x, y);
      }
      UnionRawPoints(src, rect, 0, 0);
      SimplifyPoints(UnionRaw(src, rect), 0, 0);
      SimplifyCoalesced(UnionRaw(src, rect));
      UnionBox(src.extents, src.rects, rect, out.rects);
    }
  }

  lemma UnionBox(e: Rect, rs: seq<Rect>, rect: Rect, out: seq<Rect>)
    requires NonEmptyAll(rs) && rs != [] && TightBox(e, rs) && rect.NonEmpty() && NonEmptyAll(out)
    requires forall x, y :: Covers(out, x, y) <==> Covers(rs, x, y) || rect.Has(x, y)
    ensures TightBox(UnionExtents(e, rect), out)
  {
    TightIsPointBox(e, rs);
    var box := UnionExtents(e, rect);
    assert Covers(out, rect.left, rect.top);
    assert Covers(out, rect.right - 1, rect.bottom - 1);
    assert out != [] by { assert exists i :: CoversAt(out, i, rect.left, rect.top); }
    var y1 :| Covers(rs, e.left, y1);
    var y2 :| Covers(rs, e.right - 1, y2);
    var x1 :| Covers(rs, x1, e.top);
    var x2 :| Covers(rs, x2, e.bottom - 1);
    assert Covers(out, e.left, y1) && Covers(out, e.right - 1, y2) && Covers(out, x1, e.top)
        && Covers(out, x2, e.bottom - 1);
    assert PointBox(box, out);
    TightIsPointBox(box, out);
  }

  // ----- intersection

  lemma CommonPoints(a: Rect, b: Rect, x: int, y: int)
    ensures Common(a, b).Has(x, y) <==> a.Has(x, y) && b.Has(x, y)
  {
  }

  /** Clipping keeps the banded order and exactly the points inside rect; what the early stop
      skips lies below rect. */
  lemma {:induction false} ClipAllPoints(rs: seq<Rect>, rect: Rect, x: int, y: int)
    requires Banded(rs)
    ensures Banded(ClipAll(rs, rect)) && |ClipAll(rs, rect)| <= |rs|
    ensures Covers(ClipAll(rs, rect), x, y) <==> Covers(rs, x, y) && rect.Has(x, y)
  {
    if rs != [] && rect.bottom > rs[0].top {
      var c, rest := Common(rs[0], rect), ClipAll(rs[1..], rect);
      var head := if c.NonEmpty() then [c] else [];
      BandedTail(rs);
      ClipAllPoints(rs[1..], rect, x, y);
      CoversHeadTail(rs, x, y);
      CoversConcat(head, rest, x, y);
      CoversOne(c, x, y);
      assert !Covers([], x, y);
      if c.NonEmpty() {
        assert forall j :: 0 <= j < |rs[1..]| ==> Before(rs[0], rs[1..][j]);
        ClipAllAfter(rs[0], rs[1..], rect);
      }
    } else {
      BelowNoPoints(rs, rect, x, y);
    }
  }

  lemma {:induction false} ClipAllAfter(r: Rect, rs: seq<Rect>, rect: Rect)
    requires NonEmptyAll(rs) && Common(r, rect).NonEmpty()
    requires forall j :: 0 <= j < |rs| ==> Before(r, rs[j])
    ensures NonEmptyAll(ClipAll(rs, rect))
    ensures forall i :: 0 <= i < |ClipAll(rs, rect)| ==> Before(Common(r, rect), ClipAll(rs, rect)[i])
  {
    if rs != [] && rect.bottom > rs[0].top {
      ClipAllAfter(r, rs[1..], rect);
      assert Before(r, rs[0]);
    }
  }

  lemma CoversHeadTail(rs: seq<Rect>, x: int, y: int)
    requires rs != []
    ensures Covers(rs, x, y) <==> rs[0].Has(x, y) || Covers(rs[1..], x, y)
  {
    assert rs == [rs[0]] + rs[1..];
    CoversConcat([rs[0]], rs[1..], x, y);
    CoversOne(rs[0], x, y);
  }

  lemma BandedTail(rs: seq<Rect>)
    requires Banded(rs) && rs != []
    ensures Banded(rs[1..])
  {
  }

  lemma CoversOne(r: Rect, x: int, y: int)
    ensures Covers([r], x, y) <==> r.Has(x, y)
  {
    if r.Has(x, y) { assert CoversAt([r], 0, x, y); }
  }

  lemma BelowNoPoints(rs: seq<Rect>, rect: Rect, x: int, y: int)
    requires Banded(rs) && (rs != [] ==> rect.bottom <= rs[0].top)
    ensures !(Covers(rs, x, y) && rect.Has(x, y))
  {
    if rs != [] { BandedTop(rs); }
  }

  lemma {:induction false} BoxOfTight(rs: seq<Rect>)
    requires NonEmptyAll(rs)
    ensures TightBox(BoxOf(rs), rs)
  {
    if rs != [] {
      var init, last := rs[..|rs| - 1], rs[|rs| - 1];
      BoxOfTight(init);
      GrowTight(BoxOf(init), init, last);
      assert rs == init + [last];
    }
  }

  lemma GrowTight(e: Rect, rs: seq<Rect>, c: Rect)
    requires NonEmptyAll(rs) && TightBox(e, rs) && c.NonEmpty()
    ensures TightBox(GrowBox(e, c), rs + [c])
  {
    var out := rs + [c];
    assert c in out;
    assert forall r :: r in rs ==> r in out;
    if rs != [] {
      assert rs[0] in rs && rs[0].NonEmpty();
    }
  }

  /** An intersection keeps a region well formed and keeps exactly the points inside rect. */
  lemma IntersectIsIntersection(src: RegionValue, rect: Rect)
    requires WellFormed(src)
    ensures WellFormed(IntersectRect(src, rect))
    ensures Points(IntersectRect(src, rect).rects) == Points(src.rects) * RectPoints(rect)
  {
    if src.rects == [] {
      assert Points([]) == iset{};
    } else if |src.rects| == 1 {
      IntersectSingle(src, rect);
    } else {
      var items := ClipAll(src.rects, rect);
      var out := Simplify(items);
      forall x, y
        ensures Covers(out, x, y) <==> Covers(src.rects, x, y) && rect.Has(x, y)
      {
        ClipAllPoints(src.rects, rect, x, y);
        SimplifyPoints(items, x, y);
      }
      ClipAllPoints(src.rects, rect, 0, 0);
      SimplifyCoalesced(items);
      SimplifyPoints(items, 0, 0);
      BoxOfTight(items);
      SimplifyTight(items, BoxOf(items));
    }
  }

  lemma SimplifyTight(rs: seq<Rect>, e: Rect)
    requires Banded(rs) && TightBox(e, rs)
    ensures TightBox(e, Simplify(rs))
  {
    SimplifyPoints(rs, 0, 0);
    if rs != [] {
      forall x, y
        ensures Covers(Simplify(rs), x, y) <==> Covers(rs, x, y)
      {
        SimplifyPoints(rs, x, y);
      }
      TightIsPointBox(e, rs);
      TightIsPointBox(e, Simplify(rs));
    }
  }

  lemma IntersectSingle(src: RegionValue, rect: Rect)
    requires WellFormed(src) && |src.rects| == 1
    ensures WellFormed(IntersectRect(src, rect))
    ensures Points(IntersectRect(src, rect).rects) == Points(src.rects) * RectPoints(rect)
  {
    var r, c := src.rects[0], Common(src.extents, rect);
    assert src.rects == [r] && src.extents == r by { assert r in src.rects; }
    SingleWellFormed(r);
    if c.NonEmpty() { SingleWellFormed(c); } else { assert Points([]) == iset{}; }
    forall x, y
      ensures c.Has(x, y) <==> r.Has(x, y) && rect.Has(x, y)
    {
      CommonPoints(r, rect, x, y);
    }
  }

  lemma {:induction false} AnyMeetsPoints(rs: seq<Rect>, rect: Rect)
    requires Banded(rs)
    ensures AnyMeets(rs, rect) <==> exists x, y :: Covers(rs, x, y) && rect.Has(x, y)
  {
    if rs != [] && rect.bottom > rs[0].top {
      var c := Common(rs[0], rect);
      BandedTail(rs);
      AnyMeetsPoints(rs[1..], rect);
      forall x, y
        ensures Covers(rs, x, y) <==> rs[0].Has(x, y) || Covers(rs[1..], x, y)
      {
        CoversHeadTail(rs, x, y);
      }
      if c.NonEmpty() {
        assert Covers(rs, c.left, c.top) && rect.Has(c.left, c.top);
      }
    } else {
      forall x, y
        ensures !(Covers(rs, x, y) && rect.Has(x, y))
      {
        BelowNoPoints(rs, rect, x, y);
      }
    }
  }

  /** region16_intersects_rect is true exactly when region and rectangle share a point. */
  lemma IntersectsIffCommonPoint(src: RegionValue, rect: Rect)
    requires WellFormed(src)
    ensures IntersectsRect(src, rect) <==> exists p :: p in Points(src.rects) && p in RectPoints(rect)
  {
    if src.rects == [] {
      assert Points([]) == iset{};
    } else {
      AnyMeetsPoints(src.rects, rect);
      TightIsPointBox(src.extents, src.rects);
      if exists x, y :: Covers(src.rects, x, y) && rect.Has(x, y) {
        var x, y :| Covers(src.rects, x, y) && rect.Has(x, y);
        CommonPoints(src.extents, rect, x, y);
        assert (x, y) in Points(src.rects) && (x, y) in RectPoints(rect);
      }
      if |src.rects| == 1 && Common(src.extents, rect).NonEmpty() {
        IntersectSingle(src, rect);
        var c := Common(src.extents, rect);
        SingleWellFormed(c);
        assert c.Has(c.left, c.top);
        assert (c.left as int, c.top as int) in RectPoints(c);
      }
      if p :| p in Points(src.rects) && p in RectPoints(rect) {
        assert Covers(src.rects, p.0, p.1) && rect.Has(p.0, p.1);
      }
    }
  }
}
