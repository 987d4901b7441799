/** The union of a region with a rectangle, band by band (region16_union_rect without its
    final coalescing), as a function on lists of rectangles. */
module RegionUnion {
  import opened Basics
  import opened RegionRects

  // ----- one band

  ghost predicate HasColumn(band: seq<Rect>, x: int) {
    exists i :: 0 <= i < |band| && band[i].left <= x < band[i].right
  }

  /** The items of a band with another vertical extent. */
  function Restack(band: seq<Rect>, top: u16, bottom: u16): (r: seq<Rect>)
    ensures |r| == |band|
    ensures forall i :: 0 <= i < |r| ==> r[i] == Rect(band[i].left, top, band[i].right, bottom)
  {
    seq(|band|, i requires 0 <= i < |band| => Rect(band[i].left, top, band[i].right, bottom))
  }

  /** The first item at or after `from` that does not end strictly left of x. */
  function SkipEnding(band: seq<Rect>, from: nat, x: int): (n: nat)
    requires from <= |band|
    ensures from <= n <= |band|
    ensures forall i :: from <= i < n ==> band[i].right < x
    ensures n < |band| ==> x <= band[n].right
    decreases |band| - from
  {
    if from == |band| || x <= band[from].right then from else SkipEnding(band, from + 1, x)
  }

  /** The item that replaces everything the rectangle overlaps or touches on the left, together
      with the number of items kept before it and the index of the first item kept after it. */
  datatype Merge = Merge(before: nat, left: u16, right: u16, after: nat)

  function MergeOf(band: seq<Rect>, rect: Rect): (m: Merge)
    ensures m.before <= m.after <= |band|
  {
    var before := SkipEnding(band, 0, rect.left);
    var left := if before < |band| && band[before].left < rect.left then band[before].left else rect.left;
    var end := SkipEnding(band, before, rect.right);
    if end < |band| && band[end].left < rect.right
    then Merge(before, left, band[end].right, end + 1)
    else Merge(before, left, rect.right, end)
  }

  /** region16_copy_band_with_union with a rectangle to merge. */
  function MergeBand(band: seq<Rect>, top: u16, bottom: u16, rect: Rect): (r: seq<Rect>)
    ensures |r| <= |band| + 1
  {
    var m := MergeOf(band, rect);
    Restack(band[..m.before], top, bottom)
    + [Rect(m.left, top, m.right, bottom)]
    + Restack(band[m.after..], top, bottom)
  }

  lemma BandCovers(band: seq<Rect>, top: int, bottom: int, x: int, y: int)
    requires IsBand(band, top, bottom)
    ensures Covers(band, x, y) <==> top <= y < bottom && HasColumn(band, x)
  {
    if top <= y < bottom && HasColumn(band, x) {
      var i :| 0 <= i < |band| && band[i].left <= x < band[i].right;
      assert CoversAt(band, i, x, y);
    }
    if Covers(band, x, y) {
      var i :| CoversAt(band, i, x, y);
      assert band[i].left <= x < band[i].right;
    }
  }

  lemma RestackBand(band: seq<Rect>, t: int, b: int, top: u16, bottom: u16, x: int)
    requires IsBand(band, t, b) && top < bottom
    ensures IsBand(Restack(band, top, bottom), top, bottom)
    ensures HasColumn(Restack(band, top, bottom), x) <==> HasColumn(band, x)
  {
    var r := Restack(band, top, bottom);
    if HasColumn(band, x) {
      var i :| 0 <= i < |band| && band[i].left <= x < band[i].right;
      assert r[i].left <= x < r[i].right;
    }
  }

  /** Where the merged item sits: right of what is kept before it, left of what is kept
      after it, and around exactly the items it replaces. */
  ghost predicate MergeFits(band: seq<Rect>, m: Merge, rect: Rect) {
    && m.before <= m.after <= |band|
    && m.left <= rect.left && rect.right <= m.right
    && (forall i :: 0 <= i < m.before ==> band[i].right <= m.left)
    && (forall i :: m.before <= i < m.after ==> m.left <= band[i].left && band[i].right <= m.right)
    && (forall i :: m.after <= i < |band| ==> m.right <= band[i].left)
    && (m.left < rect.left ==> m.before < m.after && band[m.before].left == m.left && rect.left <= band[m.before].right)
    && (rect.right < m.right ==>
          m.before < m.after && band[m.after - 1].right == m.right && band[m.after - 1].left < rect.right)
  }

  lemma MergeShape(band: seq<Rect>, t: int, b: int, rect: Rect)
    requires IsBand(band, t, b) && rect.NonEmpty()
    ensures MergeFits(band, MergeOf(band, rect), rect)
  {
    var m := MergeOf(band, rect);
    var end := SkipEnding(band, m.before, rect.right);
    assert m.after == end || m.after == end + 1;
    if m.before < |band| && rect.right <= band[m.before].right {
      assert end == m.before;
    }
    forall i | 0 <= i < m.before
      ensures band[i].right <= m.left
    {
      if m.before < |band| { assert band[i].right <= band[m.before].left; }
    }
  }

  /** Item i of a merged band. */
  function MergedItem(band: seq<Rect>, m: Merge, top: u16, bottom: u16, i: nat): Rect
    requires m.before <= m.after <= |band| && i < m.before + 1 + (|band| - m.after)
  {
    if i < m.before then band[i].(top := top, bottom := bottom)
    else if i == m.before then Rect(m.left, top, m.right, bottom)
    else band[m.after + (i - m.before - 1)].(top := top, bottom := bottom)
  }

  ghost predicate IsMerged(band: seq<Rect>, m: Merge, top: u16, bottom: u16, r: seq<Rect>) {
    && m.before <= m.after <= |band|
    && |r| == m.before + 1 + (|band| - m.after)
    && forall i :: 0 <= i < |r| ==> r[i] == MergedItem(band, m, top, bottom, i)
  }

  lemma MergeBandItems(band: seq<Rect>, top: u16, bottom: u16, rect: Rect)
    ensures IsMerged(band, MergeOf(band, rect), top, bottom, MergeBand(band, top, bottom, rect))
  {
  }

  lemma MergeBandOrdered(band: seq<Rect>, t: int, b: int, top: u16, bottom: u16, rect: Rect)
    requires IsBand(band, t, b) && rect.NonEmpty() && top < bottom
    ensures IsBand(MergeBand(band, top, bottom, rect), top, bottom)
  {
    MergeShape(band, t, b, rect);
    MergeBandItems(band, top, bottom, rect);
    MergedOrdered(band, t, b, MergeOf(band, rect), top, bottom, rect, MergeBand(band, top, bottom, rect));
  }

  lemma MergedOrdered(band: seq<Rect>, t: int, b: int, m: Merge, top: u16, bottom: u16, rect: Rect, r: seq<Rect>)
    requires IsBand(band, t, b) && MergeFits(band, m, rect) && rect.NonEmpty() && top < bottom
    requires IsMerged(band, m, top, bottom, r)
    ensures IsBand(r, top, bottom)
  {
  }

  /** Merging a rectangle into a band adds exactly the rectangle's columns. */
  lemma MergeBandColumns(band: seq<Rect>, t: int, b: int, top: u16, bottom: u16, rect: Rect, x: int)
    requires IsBand(band, t, b) && rect.NonEmpty()
    ensures HasColumn(MergeBand(band, top, bottom, rect), x) <==>
            HasColumn(band, x) || rect.left <= x < rect.right
  {
    var m, r := MergeOf(band, rect), MergeBand(band, top, bottom, rect);
    MergeShape(band, t, b, rect);
    MergeBandItems(band, top, bottom, rect);
    if HasColumn(r, x) {
      MergedAddsOnlyRect(band, m, top, bottom, rect, r, x);
    }
    if HasColumn(band, x) || rect.left <= x < rect.right {
      MergedKeepsColumn(band, m, top, bottom, rect, r, x);
    }
  }

  lemma MergedKeepsColumn(band: seq<Rect>, m: Merge, top: u16, bottom: u16, rect: Rect, r: seq<Rect>, x: int)
    requires HasColumn(band, x) || rect.left <= x < rect.right
    requires MergeFits(band, m, rect) && IsMerged(band, m, top, bottom, r)
    ensures HasColumn(r, x)
  {
    var k := m.before;
    if !(rect.left <= x < rect.right) {
      var i :| 0 <= i < |band| && band[i].left <= x < band[i].right;
      k := if i < m.before then i else if i < m.after then m.before else m.before + 1 + (i - m.after);
    }
    assert r[k].left <= x < r[k].right;
  }

  lemma MergedAddsOnlyRect(band: seq<Rect>, m: Merge, top: u16, bottom: u16, rect: Rect, r: seq<Rect>, x: int)
    requires HasColumn(r, x)
    requires MergeFits(band, m, rect) && IsMerged(band, m, top, bottom, r)
    ensures HasColumn(band, x) || rect.left <= x < rect.right
  {
    var i :| 0 <= i < |r| && r[i].left <= x < r[i].right;
    if rect.left <= x < rect.right {
    } else {
      var k := if i < m.before || (i == m.before && x < rect.left) then i else m.after + (i - m.before) - 1;
      assert band[k].left <= x < band[k].right;
    }
  }

  // ----- all bands

  /** Whether the band is copied unchanged: the rectangle is above it, below it, or inside one of
      its items (rectangle_contained_in_band). */
  function ContainedFrom(band: seq<Rect>, rect: Rect): bool {
    band != [] && band[0].left <= rect.left && (rect.right <= band[0].right || ContainedFrom(band[1..], rect))
  }

  predicate ContainedInBand(band: seq<Rect>, rect: Rect)
    requires band != []
  {
    !(band[0].top > rect.top || rect.bottom > band[0].bottom) && ContainedFrom(band, rect)
  }

  predicate KeepsBand(band: seq<Rect>, rect: Rect)
    requires band != []
  {
    band[0].bottom <= rect.top || rect.bottom <= band[0].top || ContainedInBand(band, rect)
  }

  /** What one band becomes: itself, or up to three bands with the rectangle merged into one. */
  function SplitBand(band: seq<Rect>, rect: Rect): seq<Rect>
    requires band != []
  {
    var top, bottom := band[0].top, band[0].bottom;
    if KeepsBand(band, rect) then Restack(band, top, bottom)
    else
      var mergeTop := if rect.top > top then rect.top else top;
      var mergeBottom := if rect.bottom < bottom then rect.bottom else bottom;
      (if rect.top > top then Restack(band, top, rect.top) else [])
      + MergeBand(band, mergeTop, mergeBottom, rect)
      + (if rect.bottom < bottom then Restack(band, mergeBottom, bottom) else [])
  }

  /** The piece of the rectangle that falls between a band and the next one. */
  function InterBand(band: seq<Rect>, rest: seq<Rect>, rect: Rect): seq<Rect>
    requires band != []
  {
    var top, bottom := band[0].top, band[0].bottom;
    if rest != [] && rest[0].top != bottom && rect.bottom > bottom && rect.top < rest[0].top then
      var start := if KeepsBand(band, rect) then rect.top else bottom;
      [Rect(rect.left, start, rect.right, Min(rest[0].top, rect.bottom))]
    else []
  }

  function UnionBands(rs: seq<Rect>, rect: Rect): seq<Rect>
    decreases |rs|
  {
    if rs == [] then [] else
      var n := TopRun(rs, rs[0].top);
      SplitBand(rs[..n], rect) + InterBand(rs[..n], rs[n..], rect) + UnionBands(rs[n..], rect)
  }

  function AboveAll(extents: Rect, rect: Rect): seq<Rect> {
    if rect.top < extents.top then [rect.(bottom := Min(extents.top, rect.bottom))] else []
  }

  function BelowAll(extents: Rect, rect: Rect): seq<Rect> {
    if extents.bottom < rect.bottom then [rect.(top := Max(extents.bottom, rect.top))] else []
  }

  /** region16_union_rect on a non-empty source, before coalescing. */
  function UnionRaw(src: RegionValue, rect: Rect): seq<Rect> {
    AboveAll(src.extents, rect) + UnionBands(src.rects, rect) + BelowAll(src.extents, rect)
  }

  function UnionExtents(e: Rect, rect: Rect): Rect {
    Rect(Min(rect.left, e.left), Min(rect.top, e.top), Max(rect.right, e.right), Max(rect.bottom, e.bottom))
  }

  // ----- the points of the union

  lemma RestackCovers(band: seq<Rect>, t: int, b: int, top: u16, bottom: u16, x: int, y: int)
    requires IsBand(band, t, b) && top < bottom
    ensures var r := Restack(band, top, bottom);
            && Banded(r) && Within(r, top, bottom)
            && (Covers(r, x, y) <==> top <= y < bottom && HasColumn(band, x))
  {
    RestackBand(band, t, b, top, bottom, x);
    BandCovers(Restack(band, top, bottom), top, bottom, x, y);
    BandIsBanded(Restack(band, top, bottom), top, bottom);
  }

  lemma MergeCovers(band: seq<Rect>, t: int, b: int, top: u16, bottom: u16, rect: Rect, x: int, y: int)
    requires IsBand(band, t, b) && top < bottom && rect.NonEmpty()
    ensures var r := MergeBand(band, top, bottom, rect);
            && Banded(r) && Within(r, top, bottom)
            && (Covers(r, x, y) <==> top <= y < bottom && (HasColumn(band, x) || rect.left <= x < rect.right))
  {
    MergeBandOrdered(band, t, b, top, bottom, rect);
    MergeBandColumns(band, t, b, top, bottom, rect, x);
    BandCovers(MergeBand(band, top, bottom, rect), top, bottom, x, y);
    BandIsBanded(MergeBand(band, top, bottom, rect), top, bottom);
  }

  lemma ContainedIsColumn(band: seq<Rect>, t: int, b: int, rect: Rect, x: int)
    requires IsBand(band, t, b) && ContainedFrom(band, rect) && rect.left <= x < rect.right
    ensures HasColumn(band, x)
  {
    if rect.right <= band[0].right {
      assert band[0].left <= x < band[0].right;
    } else {
      ContainedIsColumn(band[1..], t, b, rect, x);
      var i :| 0 <= i < |band| - 1 && band[1..][i].left <= x < band[1..][i].right;
      assert band[i + 1].left <= x < band[i + 1].right;
    }
  }

  /** A band and the pieces it is split into differ by the part of the rectangle at its height. */
  lemma SplitBandPoints(band: seq<Rect>, t: int, b: int, rect: Rect, x: int, y: int)
    requires IsBand(band, t, b) && band != [] && rect.NonEmpty()
    ensures var r := SplitBand(band, rect);
            && Banded(r) && Within(r, t, b)
            && (Covers(r, x, y) <==> Covers(band, x, y) || (t <= y < b && rect.Has(x, y)))
  {
    var top, bottom := band[0].top, band[0].bottom;
    BandCovers(band, t, b, x, y);
    if KeepsBand(band, rect) {
      RestackCovers(band, t, b, top, bottom, x, y);
      if ContainedInBand(band, rect) && rect.left <= x < rect.right {
        ContainedIsColumn(band, t, b, rect, x);
      }
    } else {
      SplitThree(band, t, b, rect, x, y);
    }
  }

  lemma SplitThree(band: seq<Rect>, t: int, b: int, rect: Rect, x: int, y: int)
    requires IsBand(band, t, b) && band != [] && rect.NonEmpty() && !KeepsBand(band, rect)
    ensures var r := SplitBand(band, rect);
            && Banded(r) && Within(r, t, b)
            && (Covers(r, x, y) <==> t <= y < b && (HasColumn(band, x) || rect.Has(x, y)))
  {
    var top, bottom := band[0].top, band[0].bottom;
    var mergeTop := if rect.top > top then rect.top else top;
    var mergeBottom := if rect.bottom < bottom then rect.bottom else bottom;
    var upper := if rect.top > top then Restack(band, top, rect.top) else [];
    var middle := MergeBand(band, mergeTop, mergeBottom, rect);
    var lower := if rect.bottom < bottom then Restack(band, mergeBottom, bottom) else [];
    if rect.top > top { RestackCovers(band, t, b, top, rect.top, x, y); }
    if rect.bottom < bottom { RestackCovers(band, t, b, mergeBottom, bottom, x, y); }
    MergeCovers(band, t, b, mergeTop, mergeBottom, rect, x, y);
    Stack3(upper, middle, lower, t, mergeTop, mergeBottom, b, x, y);
  }

  lemma Stack3(u: seq<Rect>, m: seq<Rect>, l: seq<Rect>, a: int, b: int, c: int, d: int, x: int, y: int)
    requires a <= b <= c <= d
    requires Banded(u) && Within(u, a, b) && Banded(m) && Within(m, b, c) && Banded(l) && Within(l, c, d)
    ensures Banded(u + m + l) && Within(u + m + l, a, d)
    ensures Covers(u + m + l, x, y) <==> Covers(u, x, y) || Covers(m, x, y) || Covers(l, x, y)
  {
    BandedConcat(u, m, a, b, c);
    BandedConcat(u + m, l, a, c, d);
    CoversConcat(u + m, l, x, y);
    CoversConcat(u, m, x, y);
  }

  lemma OneRect(r: Rect, x: int, y: int)
    requires r.NonEmpty()
    ensures Banded([r]) && Within([r], r.top, r.bottom)
    ensures Covers([r], x, y) <==> r.Has(x, y)
  {
    if r.Has(x, y) { assert CoversAt([r], 0, x, y); }
  }

  /** Between the top of the first band and the bottom of the last one, the bands, their pieces
      and the inter-band pieces cover the source and the rectangle, and nothing else. */
  lemma {:induction false} UnionBandsPoints(rs: seq<Rect>, rect: Rect, x: int, y: int)
    requires Banded(rs) && rs != [] && rect.NonEmpty()
    ensures var r, top, bottom := UnionBands(rs, rect), rs[0].top, rs[|rs| - 1].bottom;
            && Banded(r) && Within(r, top, bottom)
            && (Covers(r, x, y) <==> Covers(rs, x, y) || (top <= y < bottom && rect.Has(x, y)))
    decreases |rs|
  {
    var n := TopRun(rs, rs[0].top);
    var band, rest := rs[..n], rs[n..];
    FirstBand(rs);
    CoversConcat(band, rest, x, y);
    if rest == [] {
      SplitBandPoints(band, rs[0].top, rs[0].bottom, rect, x, y);
      LastBand(rs, n, rect);
    } else {
      UnionBandsPoints(rest, rect, x, y);
      BandOnTop(band, rs[0].top, rs[0].bottom, rest, UnionBands(rest, rect), rect, x, y);
    }
  }

  lemma LastBand(rs: seq<Rect>, n: nat, rect: Rect)
    requires rs != [] && n == TopRun(rs, rs[0].top) == |rs|
    ensures rs[..n] == rs && UnionBands(rs, rect) == SplitBand(rs, rect)
    ensures rs[n..] == []
  {
    assert UnionBands(rs[n..], rect) == [];
  }

  lemma BandOnTop(band: seq<Rect>, t: u16, b: u16, rest: seq<Rect>, out: seq<Rect>, rect: Rect, x: int, y: int)
    requires IsBand(band, t, b) && band != [] && rect.NonEmpty()
    requires Banded(rest) && rest != [] && b <= rest[0].top
    requires Banded(out) && Within(out, rest[0].top, rest[|rest| - 1].bottom)
    requires Covers(out, x, y) <==> Covers(rest, x, y) || (rest[0].top <= y < rest[|rest| - 1].bottom && rect.Has(x, y))
    ensures var r, bottom := SplitBand(band, rect) + InterBand(band, rest, rect) + out, rest[|rest| - 1].bottom;
            && Banded(r) && Within(r, t, bottom)
            && (Covers(r, x, y) <==> Covers(band, x, y) || Covers(rest, x, y) || (t <= y < bottom && rect.Has(x, y)))
  {
    SplitBandPoints(band, t, b, rect, x, y);
    BandedTop(rest);
    InterBandPoints(band, rest, rect, x, y);
    Stack3(SplitBand(band, rect), InterBand(band, rest, rect), out, t, b, rest[0].top, rest[|rest| - 1].bottom, x, y);
  }

  lemma InterBandPoints(band: seq<Rect>, rest: seq<Rect>, rect: Rect, x: int, y: int)
    requires band != [] && rest != [] && rect.NonEmpty()
    requires band[0].NonEmpty() && band[0].bottom <= rest[0].top
    ensures var r, lo, hi := InterBand(band, rest, rect), band[0].bottom, rest[0].top;
            && Banded(r) && Within(r, lo, hi)
            && (Covers(r, x, y) <==> lo <= y < hi && rect.Has(x, y))
  {
    var r := InterBand(band, rest, rect);
    if r != [] {
      OneRect(r[0], x, y);
      assert r == [r[0]];
    }
  }

  /** region16_union_rect: the raw result is banded and covers exactly the source and the rectangle. */
  lemma UnionRawPoints(src: RegionValue, rect: Rect, x: int, y: int)
    requires Banded(src.rects) && TightBox(src.extents, src.rects) && src.rects != [] && rect.NonEmpty()
    ensures Banded(UnionRaw(src, rect))
    ensures Covers(UnionRaw(src, rect), x, y) <==> Covers(src.rects, x, y) || rect.Has(x, y)
  {
    TightBoxOfBanded(src);
    UnionBandsPoints(src.rects, rect, x, y);
    var e, bands := src.extents, UnionBands(src.rects, rect);
    EndsPoints(e, rect, bands, x, y);
    assert Covers(src.rects, x, y) ==> e.top <= y < e.bottom;
  }

  lemma EndsPoints(e: Rect, rect: Rect, bands: seq<Rect>, x: int, y: int)
    requires e.top < e.bottom && rect.NonEmpty() && Banded(bands) && Within(bands, e.top, e.bottom)
    ensures var r := AboveAll(e, rect) + bands + BelowAll(e, rect);
            && Banded(r)
            && (Covers(r, x, y) <==> Covers(bands, x, y) || (rect.Has(x, y) && !(e.top <= y < e.bottom)))
  {
    var above, below := AboveAll(e, rect), BelowAll(e, rect);
    var lo: u16, hi: u16 := Min(rect.top, e.top), Max(rect.bottom, e.bottom);
    if above != [] { OneRect(above[0], x, y); assert above == [above[0]]; }
    if below != [] { OneRect(below[0], x, y); assert below == [below[0]]; }
    Stack3(above, bands, below, lo, e.top, e.bottom, hi, x, y);
  }

  // ----- how many rectangles a union can produce

  /** Each band of k items yields at most 4k rectangles, because a bottom split leaves no room for
      an inter-band piece. */
  lemma SplitBandCost(band: seq<Rect>, rest: seq<Rect>, rect: Rect)
    requires band != []
    ensures |SplitBand(band, rect)| + |InterBand(band, rest, rect)| <= 4 * |band|
  {
  }

  /** A union never needs more than the 4 * (n + 1) rectangles that are allocated for it. */
  lemma {:induction false} UnionCost(src: RegionValue, rect: Rect)
    ensures |UnionRaw(src, rect)| <= 4 * (|src.rects| + 1)
  {
    UnionBandsCost(src.rects, rect);
  }

  lemma {:induction false} UnionBandsCost(rs: seq<Rect>, rect: Rect)
    ensures |UnionBands(rs, rect)| <= 4 * |rs|
    decreases |rs|
  {
    if rs != [] {
      var n := TopRun(rs, rs[0].top);
      SplitBandCost(rs[..n], rs[n..], rect);
      UnionBandsCost(rs[n..], rect);
    }
  }
}
