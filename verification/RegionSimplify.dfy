/** Coalescing of vertically touching bands with the same columns (region16_simplify_bands). */
module RegionSimplify {
  import opened Basics
  import opened RegionRects
  import opened RegionUnion

  predicate SameColumns(a: seq<Rect>, b: seq<Rect>) {
    |a| == |b| && forall i :: 0 <= i < |a| ==> a[i].left == b[i].left && a[i].right == b[i].right
  }

  /** Where the leading band ends (next_band). */
  function BandEnd(rs: seq<Rect>): (n: nat)
    requires rs != []
    ensures 0 < n <= |rs|
  {
    TopRun(rs, rs[0].top)
  }

  /** Whether the leading band can absorb the one that follows it (band_match). */
  predicate Joins(rs: seq<Rect>)
    requires rs != []
  {
    var n := BandEnd(rs);
    n < |rs| && rs[0].bottom == rs[n].top && SameColumns(rs[..n], rs[n..n + BandEnd(rs[n..])])
  }

  function Stretch(band: seq<Rect>, bottom: u16): (r: seq<Rect>)
    ensures |r| == |band|
    ensures forall i :: 0 <= i < |r| ==> r[i] == band[i].(bottom := bottom)
  {
    seq(|band|, i requires 0 <= i < |band| => band[i].(bottom := bottom))
  }

  /** The leading band stretched over the one it absorbs. */
  function JoinFirst(rs: seq<Rect>): (r: seq<Rect>)
    requires rs != [] && Joins(rs)
    ensures r != [] && |r| < |rs|
  {
    var n := BandEnd(rs);
    Stretch(rs[..n], rs[n].bottom) + rs[n + n..]
  }

  function Simplify(rs: seq<Rect>): (r: seq<Rect>)
    ensures |r| <= |rs|
    decreases |rs|
  {
    if rs == [] || BandEnd(rs) == |rs| then rs
    else if Joins(rs) then Simplify(JoinFirst(rs))
    else rs[..BandEnd(rs)] + Simplify(rs[BandEnd(rs)..])
  }

  // ----- meaning is preserved

  ghost predicate SameSpan(a: seq<Rect>, b: seq<Rect>) {
    && (|a| > 0 <==> |b| > 0)
    && (|a| > 0 && |b| > 0 ==> a[0].top == b[0].top && a[|a| - 1].bottom == b[|b| - 1].bottom)
  }

  /** One absorption keeps the banded order and the points. */
  lemma JoinPoints(rs: seq<Rect>, x: int, y: int)
    requires Banded(rs) && rs != [] && Joins(rs)
    ensures Banded(JoinFirst(rs)) && SameSpan(rs, JoinFirst(rs))
    ensures Covers(JoinFirst(rs), x, y) <==> Covers(rs, x, y)
  {
    var n := BandEnd(rs);
    JoinParts(rs);
    JoinSpan(rs);
    JoinedPoints(rs[..n], rs[n..n + n], rs[n + n..], rs[0].top, rs[0].bottom, rs[n].bottom, x, y);
    ThreeParts(rs, n, n + n);
  }

  lemma ThreeParts(rs: seq<Rect>, n: nat, m: nat)
    requires n <= m <= |rs|
    ensures rs == rs[..n] + (rs[n..m] + rs[m..])
  {
  }

  lemma JoinSpan(rs: seq<Rect>)
    requires rs != [] && Joins(rs)
    requires var n := BandEnd(rs); n + n <= |rs| && IsBand(rs[n..n + n], rs[0].bottom, rs[n].bottom)
    ensures SameSpan(rs, JoinFirst(rs))
  {
    var n := BandEnd(rs);
    assert rs[n + n - 1] == rs[n..n + n][n - 1];
  }

  lemma JoinParts(rs: seq<Rect>)
    requires Banded(rs) && rs != [] && Joins(rs)
    ensures var n := BandEnd(rs);
            && BandEnd(rs[n..]) == n <= |rs[n..]|
            && IsBand(rs[..n], rs[0].top, rs[0].bottom)
            && IsBand(rs[n..n + n], rs[0].bottom, rs[n].bottom)
            && Banded(rs[n + n..]) && Below(rs[n + n..], rs[n].bottom)
  {
    FirstBand(rs);
    SecondBand(rs);
  }

  lemma SecondBand(rs: seq<Rect>)
    requires Banded(rs) && rs != [] && BandEnd(rs) < |rs|
    ensures var n, m := BandEnd(rs), BandEnd(rs[BandEnd(rs)..]);
            && n + m <= |rs|
            && IsBand(rs[n..n + m], rs[n].top, rs[n].bottom)
            && Banded(rs[n + m..]) && Below(rs[n + m..], rs[n].bottom)
  {
    var n, m := BandEnd(rs), BandEnd(rs[BandEnd(rs)..]);
    BandedSlice(rs, n, |rs|);
    assert rs[n..|rs|] == rs[n..];
    FirstBand(rs[n..]);
    SliceOfDrop(rs, n, m);
  }

  lemma JoinedPoints(band: seq<Rect>, second: seq<Rect>, tail: seq<Rect>, t: u16, b: u16, c: u16, x: int, y: int)
    requires band != [] && IsBand(band, t, b) && IsBand(second, b, c) && SameColumns(band, second)
    requires Banded(tail) && Below(tail, c)
    ensures Banded(Stretch(band, c) + tail)
    ensures Covers(Stretch(band, c) + tail, x, y) <==> Covers(band + (second + tail), x, y)
  {
    JoinedBand(band, second, t, b, c, x, y);
    CoversConcat(band, second + tail, x, y);
    CoversConcat(second, tail, x, y);
    CoversConcat(Stretch(band, c), tail, x, y);
    BandIsBanded(Stretch(band, c), t, c);
  }

  lemma JoinedBand(band: seq<Rect>, second: seq<Rect>, t: u16, b: u16, c: u16, x: int, y: int)
    requires IsBand(band, t, b) && IsBand(second, b, c) && SameColumns(band, second) && band != []
    ensures IsBand(Stretch(band, c), t, c)
    ensures Covers(Stretch(band, c), x, y) <==> Covers(band, x, y) || Covers(second, x, y)
  {
    assert band[0].NonEmpty() && second[0].NonEmpty();
    var joined := Stretch(band, c);
    BandCovers(band, t, b, x, y);
    BandCovers(second, b, c, x, y);
    BandCovers(joined, t, c, x, y);
    SameColumnsHas(band, second, x);
    SameColumnsHas(band, joined, x);
  }

  lemma SameColumnsHas(a: seq<Rect>, b: seq<Rect>, x: int)
    requires SameColumns(a, b)
    ensures HasColumn(a, x) <==> HasColumn(b, x)
  {
    if HasColumn(a, x) {
      var i :| 0 <= i < |a| && a[i].left <= x < a[i].right;
      assert b[i].left <= x < b[i].right;
    }
    if HasColumn(b, x) {
      var i :| 0 <= i < |b| && b[i].left <= x < b[i].right;
      assert a[i].left <= x < a[i].right;
    }
  }

  /** Coalescing keeps the banded order, the vertical span and every point. */
  lemma {:induction false} SimplifyPoints(rs: seq<Rect>, x: int, y: int)
    requires Banded(rs)
    ensures Banded(Simplify(rs)) && SameSpan(rs, Simplify(rs))
    ensures Covers(Simplify(rs), x, y) <==> Covers(rs, x, y)
    decreases |rs|
  {
    if rs == [] || BandEnd(rs) == |rs| {
    } else if Joins(rs) {
      JoinPoints(rs, x, y);
      SimplifyPoints(JoinFirst(rs), x, y);
    } else {
      var n := BandEnd(rs);
      FirstBand(rs);
      SimplifyPoints(rs[n..], x, y);
      BandThenRest(rs[..n], rs[n..], Simplify(rs[n..]), rs[0].top, rs[0].bottom, x, y);
    }
  }

  lemma BandThenRest(band: seq<Rect>, rest: seq<Rect>, rest': seq<Rect>, t: u16, b: u16, x: int, y: int)
    requires IsBand(band, t, b) && band != [] && Banded(rest') && rest != [] && b <= rest[0].top
    requires SameSpan(rest, rest') && (Covers(rest', x, y) <==> Covers(rest, x, y))
    ensures Banded(band + rest') && SameSpan(band + rest, band + rest')
    ensures Covers(band + rest', x, y) <==> Covers(band + rest, x, y)
  {
    assert band[0].NonEmpty();
    BandIsBanded(band, t, b);
    BandedTop(rest');
    BandedConcat(band, rest', t, b, rest'[|rest'| - 1].bottom);
    CoversConcat(band, rest, x, y);
    CoversConcat(band, rest', x, y);
  }

  // ----- nothing is left to coalesce

  /** rs[i..j] is a whole band of rs. */
  ghost predicate WholeBand(rs: seq<Rect>, i: int, j: int) {
    && 0 <= i < j <= |rs|
    && (forall k :: i <= k < j ==> rs[k].top == rs[i].top)
    && (i > 0 ==> rs[i - 1].top != rs[i].top)
    && (j < |rs| ==> rs[j].top != rs[i].top)
  }

  /** No two neighbouring bands touch vertically and have the same columns. */
  ghost predicate Coalesced(rs: seq<Rect>) {
    forall i, j, k :: WholeBand(rs, i, j) && WholeBand(rs, j, k) && rs[i].bottom == rs[j].top
      ==> !SameColumns(rs[i..j], rs[j..k])
  }

  /** Coalescing only stretches the first band: its top and columns stay. */
  ghost predicate SameFirstBand(a: seq<Rect>, b: seq<Rect>)
    requires a != []
  {
    && b != [] && a[0].top == b[0].top && BandEnd(a) == BandEnd(b)
    && SameColumns(a[..BandEnd(a)], b[..BandEnd(a)])
  }

  lemma {:induction false} SimplifyFirstBand(rs: seq<Rect>)
    requires Banded(rs) && rs != []
    ensures SameFirstBand(rs, Simplify(rs))
    decreases |rs|
  {
    var n := BandEnd(rs);
    if n == |rs| {
    } else if Joins(rs) {
      JoinPoints(rs, 0, 0);
      JoinFirstBand(rs);
      SimplifyFirstBand(JoinFirst(rs));
    } else {
      FirstBand(rs);
      SimplifyPoints(rs[n..], 0, 0);
      PrefixFirstBand(rs, n, Simplify(rs[n..]));
    }
  }

  lemma JoinFirstBand(rs: seq<Rect>)
    requires Banded(rs) && rs != [] && Joins(rs)
    ensures SameFirstBand(rs, JoinFirst(rs))
  {
    var n, r := BandEnd(rs), JoinFirst(rs);
    FirstBand(rs);
    FirstBand(rs[n..]);
    assert rs[n].NonEmpty() && rs[0].NonEmpty();
    if n < |r| {
      assert r[n] == rs[n..][n];
    }
    TopRunUnique(r, rs[0].top, n);
  }

  lemma PrefixFirstBand(rs: seq<Rect>, n: nat, rest: seq<Rect>)
    requires rs != [] && n == BandEnd(rs) && rest != [] && rest[0].top != rs[0].top
    ensures SameFirstBand(rs, rs[..n] + rest)
  {
    TopRunUnique(rs[..n] + rest, rs[0].top, n);
  }

  /** After coalescing no two touching bands have the same columns. */
  lemma {:induction false} SimplifyCoalesced(rs: seq<Rect>)
    requires Banded(rs)
    ensures Coalesced(Simplify(rs))
    decreases |rs|
  {
    if rs == [] || BandEnd(rs) == |rs| {
      OneBandCoalesced(rs);
    } else if Joins(rs) {
      JoinPoints(rs, 0, 0);
      SimplifyCoalesced(JoinFirst(rs));
    } else {
      var n := BandEnd(rs);
      FirstBand(rs);
      SimplifyCoalesced(rs[n..]);
      SimplifyPoints(rs[n..], 0, 0);
      SimplifyFirstBand(rs[n..]);
      PrependCoalesced(rs, n, Simplify(rs[n..]));
    }
  }

  lemma OneBandCoalesced(rs: seq<Rect>)
    requires forall i :: 0 <= i < |rs| ==> rs[i].top == rs[0].top
    ensures Coalesced(rs)
  {
  }

  lemma PrependCoalesced(rs: seq<Rect>, n: nat, rest: seq<Rect>)
    requires Banded(rs) && rs != [] && n == BandEnd(rs) < |rs| && Coalesced(rest)
    requires SameFirstBand(rs[n..], rest) && !Joins(rs)
    requires rest[0].top != rs[0].top
    requires forall i :: 0 <= i < n ==> rs[i].top == rs[0].top && rs[i].bottom == rs[0].bottom
    ensures Coalesced(rs[..n] + rest)
  {
    var r := rs[..n] + rest;
    forall i, j, k | WholeBand(r, i, j) && WholeBand(r, j, k) && r[i].bottom == r[j].top
      ensures !SameColumns(r[i..j], r[j..k])
    {
      if i < n {
        FirstWholeBand(rs[..n], rest, i, j);
        ShiftWholeBand(rs[..n], rest, j, k);
        FirstPairDiffers(rs, n, rest, k - n);
        assert r[0..n] == rs[..n];
      } else {
        LaterPairDiffers(rs[..n], rest, i, j, k);
      }
      SliceOfConcat(rs[..n], rest, j, k);
    }
  }

  lemma LaterPairDiffers(band: seq<Rect>, rest: seq<Rect>, i: int, j: int, k: int)
    requires Coalesced(rest) && |band| <= i
    requires WholeBand(band + rest, i, j) && WholeBand(band + rest, j, k)
    requires (band + rest)[i].bottom == (band + rest)[j].top
    ensures !SameColumns((band + rest)[i..j], (band + rest)[j..k])
  {
    ShiftWholeBand(band, rest, i, j);
    ShiftWholeBand(band, rest, j, k);
    SliceOfConcat(band, rest, i, j);
    SliceOfConcat(band, rest, j, k);
  }

  lemma FirstPairDiffers(rs: seq<Rect>, n: nat, rest: seq<Rect>, k: nat)
    requires Banded(rs) && rs != [] && n == BandEnd(rs) < |rs|
    requires SameFirstBand(rs[n..], rest) && !Joins(rs) && rs[0].bottom == rest[0].top
    requires WholeBand(rest, 0, k)
    ensures !SameColumns(rs[..n], rest[..k])
  {
    TopRunUnique(rest, rest[0].top, k);
    assert rs[n..][..k] == rs[n..n + k];
  }

  lemma FirstWholeBand(band: seq<Rect>, rest: seq<Rect>, i: int, j: int)
    requires rest != [] && i < |band| && WholeBand(band + rest, i, j)
    requires forall k :: 0 <= k < |band| ==> band[k].top == band[0].top
    requires band[0].top != rest[0].top
    ensures i == 0 && j == |band|
  {
    var rs := band + rest;
    assert rs[|band|].top != rs[0].top;
    assert forall k :: 0 <= k < |band| ==> rs[k].top == rs[0].top;
  }

  lemma ShiftWholeBand(band: seq<Rect>, rest: seq<Rect>, i: int, j: int)
    requires |band| <= i && WholeBand(band + rest, i, j)
    ensures WholeBand(rest, i - |band|, j - |band|)
  {
    var rs, m := band + rest, |band|;
    forall k | i - m <= k < j - m
      ensures rest[k].top == rest[i - m].top
    {
      assert rs[k + m].top == rs[i].top;
    }
    if i - m > 0 { assert rs[i - 1].top != rs[i].top; }
  }
}
