/** A region without touching rectangles is determined by its points (libfreerdp/codec/region.c:50-62): banded,
    coalesced lists with gaps are a canonical form, so the order of unions does not matter. */
module RegionCanonical {
  import opened Basics
  import opened RegionRects
  import opened RegionUnion
  import opened RegionSimplify
  import opened RegionTouching
  import opened RegionOps

  // ----- one band

  ghost predicate EqualColumns(a: seq<Rect>, b: seq<Rect>) {
    forall x: int :: HasColumn(a, x) <==> HasColumn(b, x)
  }

  ghost predicate SameUpTo(a: seq<Rect>, b: seq<Rect>, n: nat) {
    && n <= |a| && n <= |b|
    && forall k {:trigger a[k]} {:trigger b[k]} :: 0 <= k < n ==> a[k].left == b[k].left && a[k].right == b[k].right
  }

  /** The next item does not start later in the other band. */
  lemma NextLeft(a: seq<Rect>, b: seq<Rect>, i: nat)
    requires NonEmptyAll(a) && NonEmptyAll(b) && GappedColumns(a) && GappedColumns(b) && EqualColumns(a, b)
    requires SameUpTo(a, b, i) && i < |a|
    ensures i < |b| && b[i].left <= a[i].left
  {
    var x := a[i].left;
    assert HasColumn(a, x);
    var j :| 0 <= j < |b| && b[j].left <= x < b[j].right;
    if j < i { assert false; }
    if i < j { assert b[i].right < b[j].left; }
  }

  /** The column behind an item is free. */
  lemma FreeBehind(a: seq<Rect>, i: nat)
    requires NonEmptyAll(a) && GappedColumns(a) && i < |a|
    ensures !HasColumn(a, a[i].right)
  {
    forall k | 0 <= k < |a|
      ensures !(a[k].left <= a[i].right < a[k].right)
    {
      assert a[k].NonEmpty() && a[i].NonEmpty();
      if i < k { assert a[i].right < a[k].left; }
      if k < i { assert a[k].right < a[i].left; }
    }
  }

  /** And it does not end earlier. */
  lemma NextRight(a: seq<Rect>, b: seq<Rect>, i: nat)
    requires NonEmptyAll(a) && NonEmptyAll(b) && GappedColumns(a) && EqualColumns(a, b)
    requires i < |a| && i < |b| && a[i].left == b[i].left
    ensures b[i].right <= a[i].right
  {
    FreeBehind(a, i);
    assert !HasColumn(b, a[i].right);
    assert a[i].NonEmpty() && !(b[i].left <= a[i].right < b[i].right);
  }

  lemma {:induction false} SamePrefix(a: seq<Rect>, b: seq<Rect>, n: nat)
    requires NonEmptyAll(a) && NonEmptyAll(b) && GappedColumns(a) && GappedColumns(b) && EqualColumns(a, b)
    requires n <= |a|
    ensures SameUpTo(a, b, n)
  {
    if n > 0 {
      SamePrefix(a, b, n - 1);
      NextLeft(a, b, n - 1);
      NextLeft(b, a, n - 1);
      NextRight(a, b, n - 1);
      NextRight(b, a, n - 1);
    }
  }

  /** Bands with gaps that have the same columns have the same items. */
  lemma BandDetermined(a: seq<Rect>, b: seq<Rect>)
    requires NonEmptyAll(a) && NonEmptyAll(b) && GappedColumns(a) && GappedColumns(b) && EqualColumns(a, b)
    ensures SameColumns(a, b)
  {
    SamePrefix(a, b, |a|);
    SamePrefix(b, a, |b|);
  }

  // ----- lists of bands

  ghost predicate Canonical(rs: seq<Rect>) {
    Banded(rs) && Coalesced(rs) && Gapped(rs)
  }

  ghost predicate SamePoints(a: seq<Rect>, b: seq<Rect>) {
    forall x: int, y: int :: Covers(a, x, y) <==> Covers(b, x, y)
  }

  lemma FirstTop(a: seq<Rect>, b: seq<Rect>)
    requires Banded(a) && Banded(b) && SamePoints(a, b) && a != []
    ensures b != [] && b[0].top <= a[0].top
  {
    assert CoversAt(a, 0, a[0].left, a[0].top);
    assert Covers(a, a[0].left, a[0].top);
    var i :| CoversAt(b, i, a[0].left, a[0].top);
    BandedTop(b);
  }

  /** The points of the first band's rows. */
  lemma FirstRows(rs: seq<Rect>, x: int, y: int)
    requires Banded(rs) && rs != [] && y < rs[0].bottom
    ensures Covers(rs, x, y) <==> rs[0].top <= y && HasColumn(rs[..BandEnd(rs)], x)
  {
    var n := BandEnd(rs);
    FirstBand(rs);
    CoversConcat(rs[..n], rs[n..], x, y);
    BandCovers(rs[..n], rs[0].top, rs[0].bottom, x, y);
    BelowCovers(rs[n..], rs[0].bottom, x, y);
  }

  lemma BelowCovers(rs: seq<Rect>, bottom: int, x: int, y: int)
    requires Below(rs, bottom) && y < bottom
    ensures !Covers(rs, x, y)
  {
    forall i ensures !CoversAt(rs, i, x, y) {
    }
  }

  /** The rows from the bottom of the first band on. */
  lemma LaterRows(rs: seq<Rect>, x: int, y: int)
    requires Banded(rs) && rs != [] && y >= rs[0].bottom
    ensures Covers(rs, x, y) <==> Covers(rs[BandEnd(rs)..], x, y)
  {
    var n := BandEnd(rs);
    FirstBand(rs);
    CoversConcat(rs[..n], rs[n..], x, y);
    BandCovers(rs[..n], rs[0].top, rs[0].bottom, x, y);
  }

  lemma FirstGaps(rs: seq<Rect>)
    requires Banded(rs) && Gapped(rs) && rs != []
    ensures GappedColumns(rs[..BandEnd(rs)]) && NonEmptyAll(rs[..BandEnd(rs)])
  {
    FirstBand(rs);
    GappedPrefix(rs, BandEnd(rs));
  }

  lemma GappedPrefix(rs: seq<Rect>, n: nat)
    requires Gapped(rs) && n <= |rs| && forall k :: 0 <= k < n ==> rs[k].top == rs[0].top
    ensures GappedColumns(rs[..n])
  {
    forall i, j | 0 <= i < j < n
      ensures rs[i].right < rs[j].left
    {
      assert rs[i].top == rs[j].top;
    }
  }

  lemma FirstColumns(a: seq<Rect>, b: seq<Rect>)
    requires Banded(a) && Banded(b) && SamePoints(a, b) && a != [] && b != [] && a[0].top == b[0].top
    ensures EqualColumns(a[..BandEnd(a)], b[..BandEnd(b)])
  {
    var y := a[0].top;
    assert a[0].NonEmpty() && b[0].NonEmpty();
    forall x: int
      ensures HasColumn(a[..BandEnd(a)], x) <==> HasColumn(b[..BandEnd(b)], x)
    {
      FirstRows(a, x, y);
      FirstRows(b, x, y);
      assert Covers(a, x, y) <==> Covers(b, x, y);
    }
  }

  /** Neither first band ends before the other: it would touch a band with the same columns. */
  lemma FirstBottom(a: seq<Rect>, b: seq<Rect>)
    requires Canonical(a) && Canonical(b) && SamePoints(a, b) && a != [] && b != [] && a[0].top == b[0].top
    ensures b[0].bottom <= a[0].bottom
  {
    hide Banded, Coalesced, Gapped, Covers, HasColumn, BandEnd, SamePoints;
    var y: int := a[0].bottom;
    if y < b[0].bottom {
      var n := BandEnd(a);
      NextBandMeets(a, b);
      var rest := a[n..];
      BandedRest(a);
      forall x: int
        ensures HasColumn(a[..n], x) <==> HasColumn(rest[..BandEnd(rest)], x)
      {
        RowThrough(a, b, x);
        FirstRows(rest, x, y);
      }
      FirstGaps(a);
      FirstGaps(rest);
      BandDetermined(a[..n], rest[..BandEnd(rest)]);
      NotCoalesced(a);
    }
  }

  lemma BandedRest(a: seq<Rect>)
    requires Canonical(a) && a != []
    ensures Canonical(a[BandEnd(a)..])
  {
    FirstBand(a);
    var n := BandEnd(a);
    GappedRest(a, n);
    CoalescedRest(a, n);
  }

  lemma GappedRest(a: seq<Rect>, n: nat)
    requires Gapped(a) && n <= |a|
    ensures Gapped(a[n..])
  {
    forall i, j | 0 <= i < j < |a| - n && a[n..][i].top == a[n..][j].top
      ensures a[n..][i].right < a[n..][j].left
    {
      assert a[n + i].right < a[n + j].left;
    }
  }

  lemma CoalescedRest(a: seq<Rect>, n: nat)
    requires Coalesced(a) && 0 < n <= |a| && (n < |a| ==> a[n - 1].top != a[n].top)
    ensures Coalesced(a[n..])
  {
    var r := a[n..];
    forall i, j, k | WholeBand(r, i, j) && WholeBand(r, j, k) && r[i].bottom == r[j].top
      ensures !SameColumns(r[i..j], r[j..k])
    {
      WholeBandUp(a, n, i, j);
      WholeBandUp(a, n, j, k);
      assert r[i..j] == a[n + i..n + j] && r[j..k] == a[n + j..n + k];
    }
  }

  lemma WholeBandUp(a: seq<Rect>, n: nat, i: int, j: int)
    requires 0 < n <= |a| && (n < |a| ==> a[n - 1].top != a[n].top) && WholeBand(a[n..], i, j)
    ensures WholeBand(a, n + i, n + j)
  {
    var r := a[n..];
    forall k | n + i <= k < n + j
      ensures a[k].top == a[n + i].top
    {
      assert r[k - n].top == r[i].top;
    }
    if i > 0 { assert r[i - 1].top != r[i].top; }
    if n + j < |a| { assert r[j].top != r[i].top; }
  }

  /** The row below the first band is covered, so the next band starts there. */
  lemma NextBandMeets(a: seq<Rect>, b: seq<Rect>)
    requires Banded(a) && Banded(b) && SamePoints(a, b) && a != [] && b != [] && a[0].top == b[0].top
    requires a[0].bottom < b[0].bottom
    ensures BandEnd(a) < |a| && a[BandEnd(a)].top == a[0].bottom < a[BandEnd(a)].bottom
  {
    var y, x := a[0].bottom, b[0].left;
    assert a[0].NonEmpty() && b[0].NonEmpty();
    assert CoversAt(b, 0, x, y);
    assert Covers(a, x, y) <==> Covers(b, x, y);
    LaterRows(a, x, y);
    FirstBand(a);
    var rest := a[BandEnd(a)..];
    var i :| CoversAt(rest, i, x, y);
    BandedTop(rest);
    assert rest[0].NonEmpty();
  }

  /** In that row both bands have the same columns. */
  lemma RowThrough(a: seq<Rect>, b: seq<Rect>, x: int)
    requires Banded(a) && Banded(b) && SamePoints(a, b) && a != [] && b != [] && a[0].top == b[0].top
    requires a[0].bottom < b[0].bottom
    ensures HasColumn(a[..BandEnd(a)], x) <==> Covers(a[BandEnd(a)..], x, a[0].bottom)
  {
    hide Banded, Covers, HasColumn, BandEnd;
    var y := a[0].bottom;
    assert a[0].NonEmpty() by { FirstBand(a); }
    FirstColumns(a, b);
    assert HasColumn(a[..BandEnd(a)], x) <==> HasColumn(b[..BandEnd(b)], x);
    FirstRows(b, x, y);
    assert Covers(a, x, y) <==> Covers(b, x, y);
    LaterRows(a, x, y);
  }

  lemma NotCoalesced(a: seq<Rect>)
    requires Banded(a) && a != [] && BandEnd(a) < |a| && a[BandEnd(a)].top == a[0].bottom
    requires SameColumns(a[..BandEnd(a)], a[BandEnd(a)..][..BandEnd(a[BandEnd(a)..])])
    ensures !Coalesced(a)
  {
    var n := BandEnd(a);
    var m := BandEnd(a[n..]);
    assert a[0].NonEmpty();
    FirstBand(a);
    SecondBand(a);
    assert WholeBand(a, 0, n);
    assert WholeBand(a[n..], 0, m);
    WholeBandUp(a, n, 0, m);
    assert a[0..n] == a[..n] && a[n..n + m] == a[n..][..m];
  }

  /** Lists with the same points are the same list. */
  lemma {:induction false} PointsDetermine(a: seq<Rect>, b: seq<Rect>)
    requires Canonical(a) && Canonical(b) && SamePoints(a, b)
    ensures a == b
    decreases |a|
  {
    hide Banded, Coalesced, Gapped, Covers, HasColumn, BandEnd;
    if a == [] {
      if b != [] { FirstTop(b, a); }
    } else {
      FirstTop(a, b);
      FirstTop(b, a);
      FirstBottom(a, b);
      FirstBottom(b, a);
      FirstColumns(a, b);
      FirstGaps(a);
      FirstGaps(b);
      BandDetermined(a[..BandEnd(a)], b[..BandEnd(b)]);
      BandedRest(a);
      BandedRest(b);
      RestPoints(a, b);
      PointsDetermine(a[BandEnd(a)..], b[BandEnd(b)..]);
      SameFirst(a, b);
    }
  }

  lemma RestPoints(a: seq<Rect>, b: seq<Rect>)
    requires Banded(a) && Banded(b) && SamePoints(a, b) && a != [] && b != [] && a[0].bottom == b[0].bottom
    ensures SamePoints(a[BandEnd(a)..], b[BandEnd(b)..])
  {
    hide Covers;
    forall x: int, y: int
      ensures Covers(a[BandEnd(a)..], x, y) <==> Covers(b[BandEnd(b)..], x, y)
    {
      FirstBand(a);
      FirstBand(b);
      if y < a[0].bottom {
        BelowCovers(a[BandEnd(a)..], a[0].bottom, x, y);
        BelowCovers(b[BandEnd(b)..], b[0].bottom, x, y);
      } else {
        LaterRows(a, x, y);
        LaterRows(b, x, y);
        assert Covers(a, x, y) <==> Covers(b, x, y);
      }
    }
  }

  lemma SameFirst(a: seq<Rect>, b: seq<Rect>)
    requires Banded(a) && Banded(b) && a != [] && b != [] && a[0].top == b[0].top && a[0].bottom == b[0].bottom
    requires SameColumns(a[..BandEnd(a)], b[..BandEnd(b)]) && a[BandEnd(a)..] == b[BandEnd(b)..]
    ensures a == b
  {
    FirstBand(a);
    FirstBand(b);
    var x, y := a[..BandEnd(a)], b[..BandEnd(b)];
    forall i | 0 <= i < |x|
      ensures x[i] == y[i]
    {
      assert x[i].left == y[i].left && x[i].right == y[i].right;
    }
    assert x == y;
  }

  // ----- regions

  /** The smallest rectangle around a list is one rectangle. */
  lemma BoxDetermined(e: Rect, f: Rect, rs: seq<Rect>)
    requires TightBox(e, rs) && TightBox(f, rs)
    ensures e == f
  {
  }

  /** A well-formed region without touching rectangles is determined by the points it covers. */
  lemma RegionDetermined(v: RegionValue, w: RegionValue)
    requires WellFormed(v) && WellFormed(w) && Gapped(v.rects) && Gapped(w.rects)
    ensures v == w <==> Points(v.rects) == Points(w.rects)
  {
    hide Banded, Coalesced, Gapped, Covers, TightBox;
    if Points(v.rects) == Points(w.rects) {
      forall x: int, y: int
        ensures Covers(v.rects, x, y) <==> Covers(w.rects, x, y)
      {
        assert (x, y) in Points(v.rects) <==> (x, y) in Points(w.rects);
      }
      PointsDetermine(v.rects, w.rects);
      BoxDetermined(v.extents, w.extents, v.rects);
    }
  }

  /** A union stays without touching rectangles if no rectangle at the height of the new one starts where that
      ends. */
  lemma UnionStaysGapped(v: RegionValue, rect: Rect)
    requires WellFormed(v) && Gapped(v.rects) && rect.NonEmpty() && !TouchesOnRight(v.rects, rect)
    ensures WellFormed(UnionRect(v, rect)) && Gapped(UnionRect(v, rect).rects)
  {
    hide Banded, Coalesced, TightBox, Covers, Simplify, UnionRaw;
    UnionIsUnion(v, rect);
    if v.rects == [] {
      OneGapped(rect);
    } else {
      UnionKeepsGapsIff(v, rect);
    }
  }

  lemma OneGapped(rect: Rect)
    ensures Gapped([rect])
  {
  }

  /** Unless they make rectangles touch, two unions can be made in either order. */
  lemma UnionsCommute(v: RegionValue, a: Rect, b: Rect)
    requires WellFormed(v) && Gapped(v.rects) && a.NonEmpty() && b.NonEmpty()
    requires !TouchesOnRight(v.rects, a) && !TouchesOnRight(v.rects, b)
    requires !TouchesOnRight(UnionRect(v, a).rects, b) && !TouchesOnRight(UnionRect(v, b).rects, a)
    ensures UnionRect(UnionRect(v, a), b) == UnionRect(UnionRect(v, b), a)
  {
    hide WellFormed, Gapped, Points, UnionRect, TouchesOnRight;
    UnionStaysGapped(v, a);
    UnionStaysGapped(v, b);
    UnionStaysGapped(UnionRect(v, a), b);
    UnionStaysGapped(UnionRect(v, b), a);
    UnionIsUnion(v, a);
    UnionIsUnion(v, b);
    UnionIsUnion(UnionRect(v, a), b);
    UnionIsUnion(UnionRect(v, b), a);
    RegionDetermined(UnionRect(UnionRect(v, a), b), UnionRect(UnionRect(v, b), a));
  }

  /** No item starts where a rectangle inside the region ends. */
  lemma InsideNoTouch(v: RegionValue, rect: Rect)
    requires WellFormed(v) && Gapped(v.rects) && rect.NonEmpty() && RectPoints(rect) <= Points(v.rects)
    ensures !TouchesOnRight(v.rects, rect)
  {
    hide Coalesced, TightBox;
    var rs := v.rects;
    if TouchesOnRight(rs, rect) {
      var i :| 0 <= i < |rs| && rs[i].left == rect.right && rs[i].top < rect.bottom && rect.top < rs[i].bottom;
      var x: int, y: int := rect.right - 1, Max(rs[i].top, rect.top);
      assert rs[i].NonEmpty() && (x, y) in RectPoints(rect);
      var j :| CoversAt(rs, j, x, y);
      SharedRow(rs, j, i, y);
      assert false;
    }
  }

  /** Rectangles that share a row are of one band. */
  lemma SharedRow(rs: seq<Rect>, i: nat, j: nat, y: int)
    requires Banded(rs) && Gapped(rs) && i < |rs| && j < |rs| && rs[i].left < rs[j].left
    requires rs[i].top <= y < rs[i].bottom && rs[j].top <= y < rs[j].bottom
    ensures i < j && rs[i].top == rs[j].top && rs[i].right < rs[j].left
  {
    assert rs[i].NonEmpty() && rs[j].NonEmpty();
    assert i < j ==> Before(rs[i], rs[j]);
    assert j < i ==> Before(rs[j], rs[i]);
  }

  /** A rectangle that is inside already changes nothing. */
  lemma UnionInside(v: RegionValue, rect: Rect)
    requires WellFormed(v) && Gapped(v.rects) && rect.NonEmpty() && RectPoints(rect) <= Points(v.rects)
    ensures UnionRect(v, rect) == v
  {
    InsideNoTouch(v, rect);
    hide WellFormed, Gapped, Points, UnionRect, TouchesOnRight;
    UnionStaysGapped(v, rect);
    UnionIsUnion(v, rect);
    assert Points(v.rects) + RectPoints(rect) == Points(v.rects);
    RegionDetermined(UnionRect(v, rect), v);
  }

  // ----- intersections

  lemma {:induction false} ClippedFrom(rs: seq<Rect>, rect: Rect, q: nat) returns (j: nat)
    requires q < |ClipAll(rs, rect)|
    ensures j < |rs| && ClipAll(rs, rect)[q] == Common(rs[j], rect) && Common(rs[j], rect).NonEmpty()
  {
    if !Common(rs[0], rect).NonEmpty() {
      j := ClippedFrom(rs[1..], rect, q);
      j := j + 1;
    } else if q == 0 {
      j := 0;
    } else {
      j := ClippedFrom(rs[1..], rect, q - 1);
      j := j + 1;
    }
  }

  /** Clipping keeps the gaps. */
  lemma {:induction false} ClipGapped(rs: seq<Rect>, rect: Rect)
    requires Banded(rs) && Gapped(rs)
    ensures Gapped(ClipAll(rs, rect))
  {
    hide ClipAll, Gapped, Banded;
    ClipTurn(rs, rect);
    if rs != [] && rect.bottom > rs[0].top {
      var c, rest := Common(rs[0], rect), ClipAll(rs[1..], rect);
      GappedRest(rs, 1);
      TailBanded(rs);
      ClipGapped(rs[1..], rect);
      if c.NonEmpty() {
        forall q | 0 <= q < |rest| && rest[q].top == c.top
          ensures c.right < rest[q].left
        {
          var j := ClippedFrom(rs[1..], rect, q);
          ClippedPair(rs, rect, j + 1);
        }
        GappedCons(c, rest);
      } else {
        assert [] + rest == rest;
      }
    } else {
      NoneGapped();
    }
  }

  lemma ClipTurn(rs: seq<Rect>, rect: Rect)
    ensures ClipAll(rs, rect) ==
            if rs == [] || rect.bottom <= rs[0].top then []
            else (if Common(rs[0], rect).NonEmpty() then [Common(rs[0], rect)] else []) + ClipAll(rs[1..], rect)
  {
  }

  lemma TailBanded(rs: seq<Rect>)
    requires Banded(rs) && rs != []
    ensures Banded(rs[1..])
  {
    BandedSlice(rs, 1, |rs|);
    assert rs[1..|rs|] == rs[1..];
  }

  lemma NoneGapped()
    ensures Gapped([])
  {
  }

  lemma ClippedPair(rs: seq<Rect>, rect: Rect, j: nat)
    requires Banded(rs) && Gapped(rs) && 0 < j < |rs|
    requires Common(rs[0], rect).NonEmpty() && Common(rs[j], rect).NonEmpty()
    requires Common(rs[0], rect).top == Common(rs[j], rect).top
    ensures Common(rs[0], rect).right < Common(rs[j], rect).left
  {
    assert Before(rs[0], rs[j]);
    assert rs[0].right < rs[j].left;
  }

  lemma GappedCons(c: Rect, rest: seq<Rect>)
    requires Gapped(rest) && forall q :: 0 <= q < |rest| && rest[q].top == c.top ==> c.right < rest[q].left
    ensures Gapped([c] + rest)
  {
    var r := [c] + rest;
    forall i, j | 0 <= i < j < |r| && r[i].top == r[j].top
      ensures r[i].right < r[j].left
    {
      if i > 0 { assert rest[i - 1].right < rest[j - 1].left; } else { assert r[j] == rest[j - 1]; }
    }
  }

  lemma IntersectStaysGapped(v: RegionValue, rect: Rect)
    requires WellFormed(v) && Gapped(v.rects)
    ensures Gapped(IntersectRect(v, rect).rects)
  {
    hide Simplify, Coalesced, TightBox;
    if |v.rects| > 1 {
      ClipGapped(v.rects, rect);
      ClipAllPoints(v.rects, rect, 0, 0);
      SimplifyGapped(ClipAll(v.rects, rect));
    }
  }

  /** The intersection is the one region of the common points. */
  lemma IntersectionDetermined(v: RegionValue, rect: Rect, w: RegionValue)
    requires WellFormed(v) && Gapped(v.rects) && WellFormed(w) && Gapped(w.rects)
    ensures IntersectRect(v, rect) == w <==> Points(w.rects) == Points(v.rects) * RectPoints(rect)
  {
    hide WellFormed, Gapped, Points, IntersectRect;
    IntersectIsIntersection(v, rect);
    IntersectStaysGapped(v, rect);
    RegionDetermined(IntersectRect(v, rect), w);
  }
}
