/** When the "no two rectangles within a band are allowed to touch" rule of the header comment
    survives a union (libfreerdp/codec/region.c:59-61, 290, 312). */
module RegionTouching {
  import opened Basics
  import opened RegionRects
  import opened RegionUnion
  import opened RegionSimplify

  /** Rectangles of one band leave a gap between them. */
  ghost predicate Gapped(rs: seq<Rect>) {
    forall i, j {:trigger rs[i].right, rs[j].left} :: 0 <= i < j < |rs| && rs[i].top == rs[j].top
        ==> rs[i].right < rs[j].left
  }

  /** The rectangle ends exactly where an item starts. */
  ghost predicate StartsAt(band: seq<Rect>, x: int) {
    exists i :: 0 <= i < |band| && band[i].left == x
  }

  /** An item at the height of the rectangle starts exactly where the rectangle ends. */
  ghost predicate TouchesOnRight(rs: seq<Rect>, rect: Rect) {
    exists i :: 0 <= i < |rs| && rs[i].left == rect.right && rs[i].top < rect.bottom && rect.top < rs[i].bottom
  }

  lemma GappedConcat(a: seq<Rect>, b: seq<Rect>, lo: int, mid: int, hi: int)
    requires Banded(a) && Within(a, lo, mid) && Banded(b) && Within(b, mid, hi)
    ensures Gapped(a + b) <==> Gapped(a) && Gapped(b)
  {
    var r := a + b;
    if Gapped(r) {
      forall i, j | 0 <= i < j < |a| && a[i].top == a[j].top
        ensures a[i].right < a[j].left
      {
        assert r[i] == a[i] && r[j] == a[j];
      }
      forall i, j | 0 <= i < j < |b| && b[i].top == b[j].top
        ensures b[i].right < b[j].left
      {
        assert r[|a| + i] == b[i] && r[|a| + j] == b[j];
      }
    }
  }

  lemma GappedBand(band: seq<Rect>, t: int, b: int, top: u16, bottom: u16)
    requires IsBand(band, t, b) && Gapped(band)
    ensures Gapped(Restack(band, top, bottom))
  {
  }

  ghost predicate GappedColumns(band: seq<Rect>) {
    forall i, j {:trigger band[i].right, band[j].left} :: 0 <= i < j < |band| ==> band[i].right < band[j].left
  }

  lemma GappedIsColumns(band: seq<Rect>, t: int, b: int)
    requires IsBand(band, t, b)
    ensures Gapped(band) <==> GappedColumns(band)
  {
  }

  /** Merging keeps the gaps exactly when no item starts where the rectangle ends. */
  lemma MergeGapped(band: seq<Rect>, t: int, b: int, top: u16, bottom: u16, rect: Rect)
    requires IsBand(band, t, b) && GappedColumns(band) && rect.NonEmpty()
    ensures GappedColumns(MergeBand(band, top, bottom, rect)) <==> !StartsAt(band, rect.right)
  {
    MergeShape(band, t, b, rect);
    MergeAfter(band, t, b, rect);
    MergeBandItems(band, top, bottom, rect);
    MergedGapped(band, MergeOf(band, rect), top, bottom, rect, MergeBand(band, top, bottom, rect));
  }

  lemma MergedGapped(band: seq<Rect>, m: Merge, top: u16, bottom: u16, rect: Rect, r: seq<Rect>)
    requires MergeFits(band, m, rect) && GappedColumns(band) && m.left < m.right && NonEmptyAll(band)
    requires IsMerged(band, m, top, bottom, r)
    requires forall k :: 0 <= k < m.before ==> band[k].right < m.left
    requires StartsAt(band, rect.right) <==> m.after < |band| && m.right == band[m.after].left
    requires !StartsAt(band, rect.right) ==> forall k :: m.after <= k < |band| ==> m.right < band[k].left
    ensures GappedColumns(r) <==> !StartsAt(band, rect.right)
  {
    if StartsAt(band, rect.right) {
      assert r[m.before].right == r[m.before + 1].left;
    } else {
      forall i, j | 0 <= i < j < |r|
        ensures r[i].right < r[j].left
      {
        if i < m.before < j {
          var k := m.after + (j - m.before - 1);
          assert band[i].right < m.left < m.right < band[k].left;
        }
      }
    }
  }

  lemma MergeAfter(band: seq<Rect>, t: int, b: int, rect: Rect)
    requires IsBand(band, t, b) && rect.NonEmpty()
    requires GappedColumns(band)
    ensures var m := MergeOf(band, rect);
            && (forall i :: 0 <= i < m.before ==> band[i].right < m.left)
            && (StartsAt(band, rect.right) <==> m.after < |band| && m.right == band[m.after].left)
            && (!StartsAt(band, rect.right) ==> forall k :: m.after <= k < |band| ==> m.right < band[k].left)
  {
    var m := MergeOf(band, rect);
    MergeShape(band, t, b, rect);
    forall i | 0 <= i < m.before
      ensures band[i].right < m.left
    {
      if m.before < |band| { assert band[i].right < band[m.before].left; }
    }
    if StartsAt(band, rect.right) {
      var i :| 0 <= i < |band| && band[i].left == rect.right;
      FirstAfter(band, t, b, rect, i);
    }
    if m.after < |band| && m.right == band[m.after].left {
      assert rect.right == m.right;
      assert StartsAt(band, rect.right);
    }
  }

  lemma FirstAfter(band: seq<Rect>, t: int, b: int, rect: Rect, i: nat)
    requires IsBand(band, t, b) && rect.NonEmpty() && i < |band| && band[i].left == rect.right
    requires GappedColumns(band)
    requires MergeFits(band, MergeOf(band, rect), rect)
    ensures MergeOf(band, rect).after == i && MergeOf(band, rect).right == rect.right
  {
    var m := MergeOf(band, rect);
    assert band[i].NonEmpty();
    assert m.after <= i;
    assert band[m.after].NonEmpty();
  }

  // ----- through the whole union

  lemma TouchesConcat(a: seq<Rect>, b: seq<Rect>, rect: Rect)
    ensures TouchesOnRight(a + b, rect) <==> TouchesOnRight(a, rect) || TouchesOnRight(b, rect)
  {
    if TouchesOnRight(a, rect) {
      var i :| 0 <= i < |a| && a[i].left == rect.right && a[i].top < rect.bottom && rect.top < a[i].bottom;
      assert (a + b)[i] == a[i];
    }
    if TouchesOnRight(b, rect) {
      var i :| 0 <= i < |b| && b[i].left == rect.right && b[i].top < rect.bottom && rect.top < b[i].bottom;
      assert (a + b)[|a| + i] == b[i];
    }
  }

  lemma TouchesBand(band: seq<Rect>, t: int, b: int, rect: Rect)
    requires IsBand(band, t, b) && band != [] && GappedColumns(band) && rect.NonEmpty()
    ensures TouchesOnRight(band, rect) <==> !KeepsBand(band, rect) && StartsAt(band, rect.right)
  {
    if TouchesOnRight(band, rect) && ContainedInBand(band, rect) {
      ContainedNoStart(band, t, b, rect);
    }
  }

  lemma ContainedNoStart(band: seq<Rect>, t: int, b: int, rect: Rect)
    requires IsBand(band, t, b) && GappedColumns(band) && rect.NonEmpty() && ContainedFrom(band, rect)
    ensures !StartsAt(band, rect.right)
  {
    if rect.right <= band[0].right {
    } else {
      ContainedNoStart(band[1..], t, b, rect);
      forall i | 0 <= i < |band|
        ensures band[i].left != rect.right
      {
        if 0 < i { assert band[1..][i - 1] == band[i]; }
      }
    }
  }

  /** A band keeps its gaps through a split exactly when no item of it, at the height of the
      rectangle, starts where the rectangle ends. */
  lemma SplitBandGapped(band: seq<Rect>, t: int, b: int, rect: Rect)
    requires IsBand(band, t, b) && band != [] && Gapped(band) && rect.NonEmpty()
    ensures Gapped(SplitBand(band, rect)) <==> !TouchesOnRight(band, rect)
  {
    GappedIsColumns(band, t, b);
    TouchesBand(band, t, b, rect);
    if KeepsBand(band, rect) {
      GappedBand(band, t, b, band[0].top, band[0].bottom);
    } else {
      SplitThreeGapped(band, t, b, rect);
    }
  }

  lemma SplitThreeGapped(band: seq<Rect>, t: int, b: int, rect: Rect)
    requires IsBand(band, t, b) && band != [] && Gapped(band) && rect.NonEmpty() && !KeepsBand(band, rect)
    ensures Gapped(SplitBand(band, rect)) <==> !StartsAt(band, rect.right)
  {
    var top, bottom := band[0].top, band[0].bottom;
    var mergeTop := if rect.top > top then rect.top else top;
    var mergeBottom := if rect.bottom < bottom then rect.bottom else bottom;
    var upper := if rect.top > top then Restack(band, top, rect.top) else [];
    var middle := MergeBand(band, mergeTop, mergeBottom, rect);
    var lower := if rect.bottom < bottom then Restack(band, mergeBottom, bottom) else [];
    if rect.top > top {
      RestackCovers(band, t, b, top, rect.top, 0, 0);
      GappedBand(band, t, b, top, rect.top);
    }
    if rect.bottom < bottom {
      RestackCovers(band, t, b, mergeBottom, bottom, 0, 0);
      GappedBand(band, t, b, mergeBottom, bottom);
    }
    MergeBandOrdered(band, t, b, mergeTop, mergeBottom, rect);
    BandIsBanded(middle, mergeTop, mergeBottom);
    GappedIsColumns(band, t, b);
    GappedIsColumns(middle, mergeTop, mergeBottom);
    MergeGapped(band, t, b, mergeTop, mergeBottom, rect);
    GappedStack(upper, middle, lower, t, mergeTop, mergeBottom, b);
  }

  lemma GappedStack(u: seq<Rect>, m: seq<Rect>, l: seq<Rect>, a: int, b: int, c: int, d: int)
    requires a <= b <= c <= d
    requires Banded(u) && Within(u, a, b) && Banded(m) && Within(m, b, c) && Banded(l) && Within(l, c, d)
    ensures Gapped(u + m + l) <==> Gapped(u) && Gapped(m) && Gapped(l)
  {
    BandedConcat(u, m, a, b, c);
    GappedConcat(u + m, l, a, c, d);
    GappedConcat(u, m, a, b, c);
  }

  lemma GappedPieces(band: seq<Rect>, rest: seq<Rect>)
    requires Gapped(band + rest)
    ensures Gapped(band) && Gapped(rest)
  {
    var n, rs := |band|, band + rest;
    forall i, j | 0 <= i < j < |band| && band[i].top == band[j].top
      ensures band[i].right < band[j].left
    {
      assert rs[i] == band[i] && rs[j] == band[j];
    }
    forall i, j | 0 <= i < j < |rest| && rest[i].top == rest[j].top
      ensures rest[i].right < rest[j].left
    {
      assert rs[n + i] == rest[i] && rs[n + j] == rest[j];
    }
  }

  lemma InterBandGapped(band: seq<Rect>, rest: seq<Rect>, rect: Rect)
    requires band != []
    ensures Gapped(InterBand(band, rest, rect))
  {
  }

  lemma {:induction false} UnionBandsGapped(rs: seq<Rect>, rect: Rect)
    requires Banded(rs) && rs != [] && Gapped(rs) && rect.NonEmpty()
    ensures Gapped(UnionBands(rs, rect)) <==> !TouchesOnRight(rs, rect)
    decreases |rs|
  {
    hide Gapped, TouchesOnRight, SplitBand, InterBand, TopRun;
    var n := TopRun(rs, rs[0].top);
    var band, rest := rs[..n], rs[n..];
    FirstBand(rs);
    GappedPieces(band, rest);
    SplitBandGapped(band, rs[0].top, rs[0].bottom, rect);
    if rest == [] {
      LastBand(rs, n, rect);
    } else {
      UnionBandsGapped(rest, rect);
      UnionBandsPoints(rest, rect, 0, 0);
      BandedTop(rest);
      SplitBandPoints(band, rs[0].top, rs[0].bottom, rect, 0, 0);
      InterBandPoints(band, rest, rect, 0, 0);
      InterBandGapped(band, rest, rect);
      TouchesConcat(band, rest, rect);
      GappedStack(SplitBand(band, rect), InterBand(band, rest, rect), UnionBands(rest, rect),
                  rs[0].top, rs[0].bottom, rest[0].top, rest[|rest| - 1].bottom);
    }
  }

  lemma UnionRawGapped(src: RegionValue, rect: Rect)
    requires Banded(src.rects) && TightBox(src.extents, src.rects) && src.rects != [] && rect.NonEmpty()
    requires Gapped(src.rects)
    ensures Gapped(UnionRaw(src, rect)) <==> !TouchesOnRight(src.rects, rect)
  {
    var e, bands := src.extents, UnionBands(src.rects, rect);
    TightBoxOfBanded(src);
    UnionBandsPoints(src.rects, rect, 0, 0);
    UnionBandsGapped(src.rects, rect);
    EndsGapped(e, rect, bands);
  }

  lemma EndsGapped(e: Rect, rect: Rect, bands: seq<Rect>)
    requires e.top < e.bottom && rect.NonEmpty() && Banded(bands) && Within(bands, e.top, e.bottom)
    ensures Gapped(AboveAll(e, rect) + bands + BelowAll(e, rect)) <==> Gapped(bands)
  {
    GappedStack(AboveAll(e, rect), bands, BelowAll(e, rect),
                Min(rect.top, e.top), e.top, e.bottom, Max(rect.bottom, e.bottom));
  }

  /** Coalescing neither opens nor closes a gap. */
  lemma {:induction false} SimplifyGapped(rs: seq<Rect>)
    requires Banded(rs)
    ensures Gapped(Simplify(rs)) <==> Gapped(rs)
    decreases |rs|
  {
    if rs == [] || BandEnd(rs) == |rs| {
    } else if Joins(rs) {
      JoinPoints(rs, 0, 0);
      JoinGapped(rs);
      SimplifyGapped(JoinFirst(rs));
    } else {
      var n := BandEnd(rs);
      FirstBand(rs);
      SimplifyGapped(rs[n..]);
      SimplifyPoints(rs[n..], 0, 0);
      GappedThenRest(rs[..n], rs[n..], Simplify(rs[n..]), rs[0].top, rs[0].bottom);
    }
  }

  lemma GappedThenRest(band: seq<Rect>, rest: seq<Rect>, rest': seq<Rect>, t: u16, b: u16)
    requires IsBand(band, t, b) && Banded(rest) && Banded(rest') && rest != [] && SameSpan(rest, rest')
    requires b <= rest[0].top && (Gapped(rest) <==> Gapped(rest'))
    ensures Gapped(band + rest) <==> Gapped(band + rest')
  {
    BandIsBanded(band, t, b);
    BandedTop(rest);
    BandedTop(rest');
    GappedConcat(band, rest, t, b, rest[|rest| - 1].bottom);
    GappedConcat(band, rest', t, b, rest[|rest| - 1].bottom);
  }

  lemma JoinGapped(rs: seq<Rect>)
    requires Banded(rs) && rs != [] && Joins(rs)
    ensures Gapped(JoinFirst(rs)) <==> Gapped(rs)
  {
    hide Gapped, Stretch, IsBand, SameColumns, Below, Banded;
    var n := BandEnd(rs);
    JoinParts(rs);
    ThreeParts(rs, n, n + n);
    GappedParts(rs, rs[..n], rs[n..n + n], rs[n + n..], JoinFirst(rs), rs[0].top, rs[0].bottom, rs[n].bottom);
  }

  lemma GappedParts(rs: seq<Rect>, band: seq<Rect>, second: seq<Rect>, tail: seq<Rect>, out: seq<Rect>, t: u16,
      b: u16, c: u16)
    requires rs == band + (second + tail) && out == Stretch(band, c) + tail
    requires band != [] && IsBand(band, t, b) && IsBand(second, b, c) && SameColumns(band, second)
    requires Banded(tail) && Below(tail, c)
    ensures Gapped(out) <==> Gapped(rs)
  {
    JoinedGapped(band, second, tail, t, b, c);
  }

  lemma JoinedGapped(band: seq<Rect>, second: seq<Rect>, tail: seq<Rect>, t: u16, b: u16, c: u16)
    requires band != [] && IsBand(band, t, b) && IsBand(second, b, c) && SameColumns(band, second)
    requires Banded(tail) && Below(tail, c)
    ensures Gapped(Stretch(band, c) + tail) <==> Gapped(band + (second + tail))
  {
    var hi := 0x1_0000;
    assert band[0].NonEmpty() && second[0].NonEmpty();
    JoinedBand(band, second, t, b, c, 0, 0);
    BandIsBanded(band, t, b);
    BandIsBanded(second, b, c);
    BandIsBanded(Stretch(band, c), t, c);
    assert Within(tail, c, hi);
    BandedConcat(second, tail, b, c, hi);
    GappedConcat(band, second + tail, t, b, hi);
    GappedConcat(second, tail, b, c, hi);
    GappedConcat(Stretch(band, c), tail, t, c, hi);
    GappedIsColumns(band, t, b);
    GappedIsColumns(second, b, c);
    GappedIsColumns(Stretch(band, c), t, c);
  }

  /** The header's rule survives region16_union_rect exactly when no rectangle of the source that
      shares a scanline with the new one starts at its right edge. */
  lemma UnionKeepsGapsIff(src: RegionValue, rect: Rect)
    requires Banded(src.rects) && TightBox(src.extents, src.rects) && src.rects != [] && rect.NonEmpty()
    requires Gapped(src.rects)
    ensures Gapped(Simplify(UnionRaw(src, rect))) <==> !TouchesOnRight(src.rects, rect)
  {
    UnionRawPoints(src, rect, 0, 0);
    UnionRawGapped(src, rect);
    SimplifyGapped(UnionRaw(src, rect));
  }

  /** The rule does break: adding [0,10) to [10,20) leaves two touching rectangles. */
  lemma UnionCanTouch() returns (src: RegionValue, rect: Rect)
    ensures Banded(src.rects) && TightBox(src.extents, src.rects) && Gapped(src.rects) && rect.NonEmpty()
    ensures !Gapped(Simplify(UnionRaw(src, rect)))
  {
    var r := Rect(10, 0, 20, 10);
    src, rect := RegionValue(r, [r]), Rect(0, 0, 10, 10);
    assert r in src.rects;
    assert src.rects[0].left == rect.right && src.rects[0].top < rect.bottom;
    UnionKeepsGapsIff(src, rect);
  }
}
