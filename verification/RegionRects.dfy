/** Rectangles with 16-bit corners, the y-x banded order, and the set of points a list of
    rectangles stands for (libfreerdp/codec/region.c). */
module RegionRects {
  import opened Basics

  datatype Rect = Rect(left: u16, top: u16, right: u16, bottom: u16) {
    predicate NonEmpty() {
      left < right && top < bottom
    }

    predicate Has(x: int, y: int) {
      left <= x < right && top <= y < bottom
    }
  }

  const ZERO_RECT := Rect(0, 0, 0, 0)

  type Point = (int, int)

  function Min(a: u16, b: u16): u16 {
    if a < b then a else b
  }

  function Max(a: u16, b: u16): u16 {
    if a > b then a else b
  }

  // ----- the points of a list of rectangles

  ghost predicate CoversAt(rs: seq<Rect>, i: int, x: int, y: int) {
    0 <= i < |rs| && rs[i].Has(x, y)
  }

  ghost predicate Covers(rs: seq<Rect>, x: int, y: int) {
    exists i :: CoversAt(rs, i, x, y)
  }

  ghost function Points(rs: seq<Rect>): iset<Point> {
    iset p: Point | Covers(rs, p.0, p.1)
  }

  ghost function RectPoints(r: Rect): iset<Point> {
    iset p: Point | r.Has(p.0, p.1)
  }

  lemma CoversConcat(a: seq<Rect>, b: seq<Rect>, x: int, y: int)
    ensures Covers(a + b, x, y) <==> Covers(a, x, y) || Covers(b, x, y)
  {
    if Covers(a + b, x, y) {
      var i :| CoversAt(a + b, i, x, y);
      assert if i < |a| then CoversAt(a, i, x, y) else CoversAt(b, i - |a|, x, y);
    }
    if Covers(a, x, y) {
      var i :| CoversAt(a, i, x, y);
      assert CoversAt(a + b, i, x, y);
    }
    if Covers(b, x, y) {
      var i :| CoversAt(b, i, x, y);
      assert CoversAt(a + b, |a| + i, x, y);
    }
  }

  lemma SliceOfDrop<T>(s: seq<T>, n: nat, k: nat)
    requires n + k <= |s|
    ensures s[n..][..k] == s[n..n + k] && s[n..][k..] == s[n + k..]
  {
  }

  lemma SliceOfConcat<T>(a: seq<T>, b: seq<T>, i: nat, j: nat)
    requires |a| <= i <= j <= |a + b|
    ensures (a + b)[i..j] == b[i - |a|..j - |a|]
  {
  }

  // ----- the banded order

  /** a comes before b: further left in the same band, or in a band above. */
  predicate Before(a: Rect, b: Rect) {
    || (a.top == b.top && a.bottom == b.bottom && a.right <= b.left)
    || a.bottom <= b.top
  }

  ghost predicate NonEmptyAll(rs: seq<Rect>) {
    forall i :: 0 <= i < |rs| ==> rs[i].NonEmpty()
  }

  /** Non-empty rectangles sorted into bands: rectangles of one band share top and bottom and
      do not overlap, and bands are vertically disjoint. */
  ghost predicate Banded(rs: seq<Rect>) {
    && NonEmptyAll(rs)
    && forall i, j {:trigger Before(rs[i], rs[j])} :: 0 <= i < j < |rs| ==> Before(rs[i], rs[j])
  }

  ghost predicate Within(rs: seq<Rect>, lo: int, hi: int) {
    forall i :: 0 <= i < |rs| ==> lo <= rs[i].top && rs[i].bottom <= hi
  }

  lemma BandedConcat(a: seq<Rect>, b: seq<Rect>, lo: int, mid: int, hi: int)
    requires Banded(a) && Within(a, lo, mid) && Banded(b) && Within(b, mid, hi) && lo <= mid <= hi
    ensures Banded(a + b) && Within(a + b, lo, hi)
  {
  }

  lemma BandedSlice(rs: seq<Rect>, i: nat, j: nat)
    requires Banded(rs) && i <= j <= |rs|
    ensures Banded(rs[i..j])
  {
  }

  /** A single band: what one call of region16_copy_band_with_union reads and writes. */
  ghost predicate IsBand(band: seq<Rect>, top: int, bottom: int) {
    && NonEmptyAll(band)
    && (forall i :: 0 <= i < |band| ==> band[i].top == top && band[i].bottom == bottom)
    && (forall i, j {:trigger band[i].right, band[j].left} :: 0 <= i < j < |band| ==> band[i].right <= band[j].left)
  }

  lemma BandIsBanded(band: seq<Rect>, top: int, bottom: int)
    requires IsBand(band, top, bottom)
    ensures Banded(band) && Within(band, top, bottom)
  {
  }

  /** The first rectangle at or after `from` whose top is not y: the scan of next_band. */
  function SkipTop(rs: seq<Rect>, from: nat, y: int): (n: nat)
    requires from <= |rs|
    ensures from <= n <= |rs|
    ensures forall i :: from <= i < n ==> rs[i].top == y
    ensures n < |rs| ==> rs[n].top != y
    decreases |rs| - from
  {
    if from == |rs| || rs[from].top != y then from else SkipTop(rs, from + 1, y)
  }

  /** The number of leading rectangles whose top is y. */
  function TopRun(rs: seq<Rect>, y: int): (n: nat)
    ensures n <= |rs|
    ensures |rs| > 0 && rs[0].top == y ==> n > 0
  {
    SkipTop(rs, 0, y)
  }

  lemma TopRunUnique(rs: seq<Rect>, y: int, n: nat)
    requires n <= |rs|
    requires forall i :: 0 <= i < n ==> rs[i].top == y
    requires n < |rs| ==> rs[n].top != y
    ensures TopRun(rs, y) == n
  {
    if TopRun(rs, y) < n {
    } else if n < TopRun(rs, y) {
    }
  }

  /** In a banded list the leading rectangles with the same top are one band, and the rest
      starts at or below its bottom. */
  lemma FirstBand(rs: seq<Rect>)
    requires Banded(rs) && rs != []
    ensures var n := TopRun(rs, rs[0].top);
            && 0 < n <= |rs|
            && IsBand(rs[..n], rs[0].top, rs[0].bottom)
            && Banded(rs[n..])
            && Below(rs[n..], rs[0].bottom)
            && rs == rs[..n] + rs[n..]
  {
    var n := TopRun(rs, rs[0].top);
    LeadingBand(rs, n);
    RestBelow(rs, n);
  }

  lemma LeadingBand(rs: seq<Rect>, n: nat)
    requires Banded(rs) && 0 < n <= |rs|
    requires forall i :: 0 <= i < n ==> rs[i].top == rs[0].top
    ensures IsBand(rs[..n], rs[0].top, rs[0].bottom)
  {
    forall i | 0 <= i < n
      ensures rs[i].bottom == rs[0].bottom
    {
      if 0 < i { assert Before(rs[0], rs[i]); }
    }
    forall i, j | 0 <= i < j < n
      ensures rs[i].right <= rs[j].left
    {
      assert Before(rs[i], rs[j]);
    }
  }

  lemma RestBelow(rs: seq<Rect>, n: nat)
    requires Banded(rs) && 0 < n <= |rs|
    requires n < |rs| ==> rs[n].top != rs[0].top
    ensures Banded(rs[n..]) && Below(rs[n..], rs[0].bottom)
  {
    forall i | n <= i < |rs|
      ensures rs[0].bottom <= rs[i].top
    {
      BelowFirst(rs, n, i);
    }
  }

  ghost predicate Below(rs: seq<Rect>, y: int) {
    forall i :: 0 <= i < |rs| ==> y <= rs[i].top
  }

  lemma BelowFirst(rs: seq<Rect>, n: nat, i: nat)
    requires Banded(rs) && 0 < n <= i < |rs| && rs[n].top != rs[0].top
    ensures rs[0].bottom <= rs[i].top
  {
    assert Before(rs[0], rs[n]);
    if n < i { assert Before(rs[n], rs[i]); }
  }

  lemma BandedTop(rs: seq<Rect>)
    requires Banded(rs) && rs != []
    ensures Within(rs, rs[0].top, rs[|rs| - 1].bottom)
    ensures rs[0].top < rs[|rs| - 1].bottom
  {
    forall i | 0 <= i < |rs|
      ensures rs[0].top <= rs[i].top && rs[i].bottom <= rs[|rs| - 1].bottom
    {
      if 0 < i { assert Before(rs[0], rs[i]); }
      if i < |rs| - 1 { assert Before(rs[i], rs[|rs| - 1]); }
    }
  }

  // ----- a region: rectangles with their bounding box

  datatype RegionValue = RegionValue(extents: Rect, rects: seq<Rect>)

  const EMPTY_REGION := RegionValue(ZERO_RECT, [])

  ghost predicate Encloses(e: Rect, rs: seq<Rect>) {
    forall r :: r in rs ==> e.left <= r.left && e.top <= r.top && r.right <= e.right && r.bottom <= e.bottom
  }

  /** e is the smallest rectangle around rs: it encloses rs and each side is reached. */
  ghost predicate TightBox(e: Rect, rs: seq<Rect>) {
    if rs == [] then e == ZERO_RECT else
      && Encloses(e, rs)
      && (exists r :: r in rs && r.left == e.left)
      && (exists r :: r in rs && r.top == e.top)
      && (exists r :: r in rs && r.right == e.right)
      && (exists r :: r in rs && r.bottom == e.bottom)
  }

  lemma TightBoxOfBanded(v: RegionValue)
    requires Banded(v.rects) && TightBox(v.extents, v.rects) && v.rects != []
    ensures v.extents.top == v.rects[0].top
    ensures v.extents.bottom == v.rects[|v.rects| - 1].bottom
    ensures v.extents.NonEmpty()
  {
    BandedTop(v.rects);
    assert v.rects[0] in v.rects;
    assert v.rects[|v.rects| - 1] in v.rects;
  }
}
