/** REGION16 as the C code has it: an array of rectangles and an extents field, updated in place.
    Every method is tied to the function of RegionOps that gives its meaning. */
module Region {
  import opened Basics
  import opened RegionRects
  import opened RegionUnion
  import opened RegionSimplify
  import opened RegionOps

  /** rs[i..j) of an array is one band of the first `end` rectangles. */
  ghost predicate BandRange(rs: seq<Rect>, i: int, j: int) {
    && 0 <= i < j <= |rs|
    && (forall k :: i <= k < j ==> rs[k].top == rs[i].top)
    && (j < |rs| ==> rs[j].top != rs[i].top)
  }

  lemma BandRangeRun(rs: seq<Rect>, i: int, j: int)
    requires BandRange(rs, i, j)
    ensures TopRun(rs[i..], rs[i].top) == j - i
    ensures rs[i..][..j - i] == rs[i..j] && rs[i..][j - i..] == rs[j..]
  {
    TopRunUnique(rs[i..], rs[i].top, j - i);
  }

  lemma SkipEndingUnique(band: seq<Rect>, from: nat, x: int, n: nat)
    requires from <= n <= |band|
    requires forall i :: from <= i < n ==> band[i].right < x
    requires n < |band| ==> x <= band[n].right
    ensures SkipEnding(band, from, x) == n
  {
    if SkipEnding(band, from, x) < n {
    } else if n < SkipEnding(band, from, x) {
    }
  }

  /** next_band. */
  method NextBand(a: array<Rect>, band: nat, end: nat) returns (next: nat, nbItems: nat)
    requires band < end <= a.Length
    ensures BandRange(a[..end], band, next) && nbItems == next - band
  {
    var refY := a[band].top;
    next, nbItems := band, 0;
    while next < end && a[next].top == refY
      invariant band <= next <= end && nbItems == next - band
      invariant forall k :: band <= k < next ==> a[k].top == refY
    {
      next, nbItems := next + 1, nbItems + 1;
    }
  }

  /** What region16_copy_band_with_union writes for one band. */
  function BandCopy(band: seq<Rect>, top: u16, bottom: u16, unionRect: Option<Rect>): seq<Rect> {
    match unionRect
    case None => Restack(band, top, bottom)
    case Some(rect) => MergeBand(band, top, bottom, rect)
  }

  /** One rectangle written at a moving output position. */
  method Put(a: array<Rect>, k: nat, r: Rect)
    requires k < a.Length
    modifies a
    ensures a[..k + 1] == old(a[..k]) + [r]
  {
    a[k] := r;
  }

  /** How many items a copy loop copies. */
  function CopyCount(band: seq<Rect>, limit: Option<u16>): (n: nat)
    ensures n <= |band|
    ensures limit.Some? ==> forall i :: 0 <= i < n ==> band[i].right < limit.value
    ensures n < |band| ==> limit.Some? && limit.value <= band[n].right
  {
    match limit
    case None => |band|
    case Some(x) => SkipEnding(band, 0, x)
  }

  /** rs is what the source array holds, and rs[from..stop] is the rest of a band whose top is refY. */
  ghost predicate BandRest(src: array<Rect>, rs: seq<Rect>, from: int, stop: int, end: int, refY: u16)
    reads src
  {
    && src[..] == rs && 0 <= from <= stop <= end <= |rs|
    && (forall j :: from <= j < stop ==> rs[j].top == refY)
    && (stop < end ==> rs[stop].top != refY)
  }

  /** The two copy loops of region16_copy_band_with_union: items of the band are copied to dst[at..]
      while they end strictly left of `limit`, or to the end of the band when there is no limit. */
  method CopyItems(dst: array<Rect>, at: nat, src: array<Rect>, from: nat, end: nat, refY: u16,
                   newTop: u16, newBottom: u16, limit: Option<u16>, ghost rs: seq<Rect>, ghost stop: nat)
      returns (i: nat, k: nat)
    requires dst != src && BandRest(src, rs, from, stop, end, refY)
    requires at + CopyCount(rs[from..stop], limit) <= dst.Length
    modifies dst
    ensures i == from + CopyCount(rs[from..stop], limit) && k == at + (i - from)
    ensures dst[..k] == old(dst[..at]) + Restack(rs[from..i], newTop, newBottom)
  {
    ghost var band := rs[from..stop];
    i, k := from, at;
    while i < end && src[i].top == refY && (limit.None? || src[i].right < limit.value)
      invariant src[..] == rs
      invariant from <= i <= from + CopyCount(band, limit) && k == at + (i - from)
      invariant dst[..k] == old(dst[..at]) + Restack(rs[from..i], newTop, newBottom)
    {
      assert band[i - from] == src[i];
      Put(dst, k, Rect(src[i].left, newTop, src[i].right, newBottom));
      assert Restack(rs[from..i + 1], newTop, newBottom)
          == Restack(rs[from..i], newTop, newBottom) + [Rect(rs[i].left, newTop, rs[i].right, newBottom)];
      i, k := i + 1, k + 1;
    }
    assert i < stop ==> band[i - from] == src[i];
  }

  lemma MergeOfScans(band: seq<Rect>, rect: Rect, before: nat, end: nat)
    requires before == SkipEnding(band, 0, rect.left) && end == SkipEnding(band, before, rect.right)
    ensures var first := before < |band| && band[before].left < rect.left;
            var last := end < |band| && band[end].left < rect.right;
            var left := if first then band[before].left else rect.left;
            var right := if last then band[end].right else rect.right;
            MergeOf(band, rect) == Merge(before, left, right, if last then end + 1 else end)
  {
  }

  /** The middle part of region16_copy_band_with_union: skips the items the rectangle overlaps and
      gives the columns of the item that replaces them. */
  method MergeItems(src: array<Rect>, from: nat, end: nat, refY: u16, rect: Rect, before: nat,
                    ghost rs: seq<Rect>, ghost stop: nat)
      returns (i: nat, left: u16, right: u16)
    requires from <= before <= stop && BandRest(src, rs, from, stop, end, refY)
    requires before - from == SkipEnding(rs[from..stop], 0, rect.left)
    ensures from <= i <= stop
    ensures Merge(before - from, left, right, i - from) == MergeOf(rs[from..stop], rect)
  {
    hide MergeOf, SkipEnding;
    ghost var band := rs[from..stop];
    i, left, right := before, rect.left, rect.right;
    if i < end && src[i].top == refY && src[i].left < rect.left {
      left := src[i].left;
    }
    while i < end && src[i].top == refY && src[i].right < rect.right
      invariant before <= i <= stop
      invariant forall j :: before - from <= j < i - from ==> band[j].right < rect.right
    {
      assert band[i - from] == src[i];
      i := i + 1;
    }
    SkipEndingUnique(band, before - from, rect.right, i - from);
    MergeOfScans(band, rect, before - from, i - from);
    if i < end && src[i].top == refY && src[i].left < rect.right {
      right := src[i].right;
      i := i + 1;
    }
  }

  /** The three steps that merge a rectangle into a band: l and r are what is copied on each side. */
  method CopyBandMerged(dst: array<Rect>, at: nat, src: array<Rect>, from: nat, end: nat, refY: u16,
                        newTop: u16, newBottom: u16, rect: Rect,
                        ghost rs: seq<Rect>, ghost stop: nat, ghost m: Merge, ghost l: seq<Rect>, ghost r: seq<Rect>)
      returns (i: nat, k: nat)
    requires dst != src && BandRest(src, rs, from, stop, end, refY)
    requires m == MergeOf(rs[from..stop], rect) && m.before == SkipEnding(rs[from..stop], 0, rect.left)
    requires l == Restack(rs[from..from + m.before], newTop, newBottom)
    requires r == Restack(rs[from + m.after..stop], newTop, newBottom)
    requires at + |l| + 1 + |r| <= dst.Length
    modifies dst
    ensures i == stop && k == at + |l| + 1 + |r|
    ensures dst[..k] == old(dst[..at]) + l + [Rect(m.left, newTop, m.right, newBottom)] + r
  {
    var left, right;
    i, k := CopyItems(dst, at, src, from, end, refY, newTop, newBottom, Some(rect.left), rs, stop);
    i, left, right := MergeItems(src, from, end, refY, rect, i, rs, stop);
    Put(dst, k, Rect(left, newTop, right, newBottom));
    i, k := CopyItems(dst, k + 1, src, i, end, refY, newTop, newBottom, None, rs, stop);
  }

  lemma MergeSlices(rs: seq<Rect>, from: nat, stop: nat, top: u16, bottom: u16, rect: Rect)
    requires from <= stop <= |rs|
    ensures var m := MergeOf(rs[from..stop], rect);
            && m.before == SkipEnding(rs[from..stop], 0, rect.left)
            && from + m.after <= stop
            && MergeBand(rs[from..stop], top, bottom, rect) ==
               Restack(rs[from..from + m.before], top, bottom)
               + [Rect(m.left, top, m.right, bottom)]
               + Restack(rs[from + m.after..stop], top, bottom)
  {
    var m := MergeOf(rs[from..stop], rect);
    SliceOfSlice(rs, from, stop, m.before);
    SliceOfSlice(rs, from, stop, m.after);
  }

  lemma MergeAppended(pre: seq<Rect>, rs: seq<Rect>, from: nat, stop: nat, top: u16, bottom: u16, rect: Rect,
                      m: Merge, l: seq<Rect>, r: seq<Rect>, merged: seq<Rect>)
    requires from <= stop <= |rs| && m == MergeOf(rs[from..stop], rect)
    requires l == Restack(rs[from..from + m.before], top, bottom) && r == Restack(rs[from + m.after..stop], top, bottom)
    requires merged == MergeBand(rs[from..stop], top, bottom, rect)
    ensures m.before == SkipEnding(rs[from..stop], 0, rect.left)
    ensures |merged| == |l| + 1 + |r| && pre + merged == pre + l + [Rect(m.left, top, m.right, bottom)] + r
  {
    hide MergeOf, MergeBand, Restack, SkipEnding;
    MergeSlices(rs, from, stop, top, bottom, rect);
    ConcatAssoc(pre, l, [Rect(m.left, top, m.right, bottom)], r);
  }

  lemma SliceOfSlice<T>(s: seq<T>, from: nat, stop: nat, n: nat)
    requires from + n <= stop <= |s|
    ensures s[from..stop][..n] == s[from..from + n] && s[from..stop][n..] == s[from + n..stop]
  {
  }

  lemma ConcatAssoc<T>(p: seq<T>, a: seq<T>, b: seq<T>, c: seq<T>)
    ensures p + (a + b + c) == p + a + b + c
  {
  }

  method CopyMergedBand(dst: array<Rect>, at: nat, src: array<Rect>, from: nat, end: nat,
                        newTop: u16, newBottom: u16, rect: Rect, ghost rs: seq<Rect>, ghost stop: nat)
      returns (srcNext: nat, dstNext: nat)
    requires dst != src && from < stop && from < src.Length && BandRest(src, rs, from, stop, end, src[from].top)
    requires at + |MergeBand(rs[from..stop], newTop, newBottom, rect)| <= dst.Length
    modifies dst
    ensures srcNext == stop
    ensures dstNext == at + |MergeBand(rs[from..stop], newTop, newBottom, rect)|
    ensures dst[..dstNext] == old(dst[..at]) + MergeBand(rs[from..stop], newTop, newBottom, rect)
  {
    ghost var m := MergeOf(rs[from..stop], rect);
    ghost var l := Restack(rs[from..from + m.before], newTop, newBottom);
    ghost var r := Restack(rs[from + m.after..stop], newTop, newBottom);
    ghost var pre, merged := dst[..at], MergeBand(rs[from..stop], newTop, newBottom, rect);
    MergeAppended(pre, rs, from, stop, newTop, newBottom, rect, m, l, r, merged);
    srcNext, dstNext :=
      CopyBandMerged(dst, at, src, from, end, src[from].top, newTop, newBottom, rect, rs, stop, m, l, r);
  }

  /** region16_copy_band_with_union: copies the band of src that starts at `from`, with a new
      vertical extent and with unionRect merged into it, to dst[at..]. */
  method CopyBandWithUnion(dst: array<Rect>, at: nat, src: array<Rect>, from: nat, end: nat,
                           newTop: u16, newBottom: u16, unionRect: Option<Rect>,
                           ghost rs: seq<Rect>, ghost stop: nat)
      returns (srcNext: nat, dstNext: nat)
    requires dst != src && from < stop && from < src.Length && BandRest(src, rs, from, stop, end, src[from].top)
    requires at + |BandCopy(rs[from..stop], newTop, newBottom, unionRect)| <= dst.Length
    modifies dst
    ensures srcNext == stop
    ensures dstNext == at + |BandCopy(rs[from..stop], newTop, newBottom, unionRect)|
    ensures dst[..dstNext] == old(dst[..at]) + BandCopy(rs[from..stop], newTop, newBottom, unionRect)
  {
    var refY := src[from].top;
    if unionRect.None? {
      srcNext, dstNext := CopyItems(dst, at, src, from, end, refY, newTop, newBottom, None, rs, stop);
    } else {
      srcNext, dstNext := CopyMergedBand(dst, at, src, from, end, newTop, newBottom, unionRect.value, rs, stop);
    }
  }

  /** rectangle_contained_in_band. */
  method RectangleContainedInBand(a: array<Rect>, band: nat, end: nat, rect: Rect, ghost rs: seq<Rect>, ghost stop: nat)
      returns (contained: bool)
    requires band < stop && band < a.Length && BandRest(a, rs, band, stop, end, a[band].top)
    ensures contained == ContainedInBand(rs[band..stop], rect)
  {
    var refY := a[band].top;
    if a[band].top > rect.top || rect.bottom > a[band].bottom {
      return false;
    }
    var i := band;
    while i < end && a[i].top == refY && a[i].left <= rect.left
      invariant band <= i <= stop
      invariant ContainedFrom(rs[band..stop], rect) == ContainedFrom(rs[i..stop], rect)
    {
      assert rs[i..stop][0] == a[i] && rs[i..stop][1..] == rs[i + 1..stop];
      if rect.right <= a[i].right {
        return true;
      }
      i := i + 1;
    }
    assert i < stop ==> rs[i..stop][0] == a[i];
    return false;
  }

  /** The body of the band loop of region16_union_rect up to the inter-band piece: copies the band
      at `cur`, split at the rectangle's edges, to dst[at..]. */
  method CopySplitBand(dst: array<Rect>, at: nat, src: array<Rect>, cur: nat, end: nat, rect: Rect,
                       ghost rs: seq<Rect>, ghost stop: nat)
      returns (next: nat, k: nat, topInterBand: u16)
    requires dst != src && cur < stop && cur < src.Length && BandRest(src, rs, cur, stop, end, src[cur].top)
    requires at + |SplitBand(rs[cur..stop], rect)| <= dst.Length
    modifies dst
    ensures next == stop && k == at + |SplitBand(rs[cur..stop], rect)|
    ensures dst[..k] == old(dst[..at]) + SplitBand(rs[cur..stop], rect)
    ensures topInterBand == if KeepsBand(rs[cur..stop], rect) then rect.top else src[cur].bottom
  {
    var current := src[cur];
    var keep := current.bottom <= rect.top || rect.bottom <= current.top;
    if !keep {
      keep := RectangleContainedInBand(src, cur, end, rect, rs, stop);
    }
    if keep {
      next, k := CopyBandWithUnion(dst, at, src, cur, end, current.top, current.bottom, None, rs, stop);
      topInterBand := rect.top;
    } else {
      next, k := CopyThree(dst, at, src, cur, end, rect, rs, stop);
      topInterBand := current.bottom;
    }
  }

  /** Top split, merge zone and bottom split of an overlapped band. */
  method CopyThree(dst: array<Rect>, at: nat, src: array<Rect>, cur: nat, end: nat, rect: Rect,
                   ghost rs: seq<Rect>, ghost stop: nat)
      returns (next: nat, k: nat)
    requires dst != src && cur < stop && cur < src.Length && BandRest(src, rs, cur, stop, end, src[cur].top)
    requires !KeepsBand(rs[cur..stop], rect)
    requires at + |SplitBand(rs[cur..stop], rect)| <= dst.Length
    modifies dst
    ensures next == stop && k == at + |SplitBand(rs[cur..stop], rect)|
    ensures dst[..k] == old(dst[..at]) + SplitBand(rs[cur..stop], rect)
  {
    hide MergeBand, Restack;
    ghost var pre, band := dst[..at], rs[cur..stop];
    var current := src[cur];
    var mergeTop, mergeBottom := current.top, current.bottom;
    k := at;
    ghost var upper, lower := [], [];
    if rect.top > current.top {
      next, k := CopyBandWithUnion(dst, at, src, cur, end, current.top, rect.top, None, rs, stop);
      mergeTop := rect.top;
      upper := Restack(band, current.top, rect.top);
    }
    if rect.bottom < current.bottom {
      mergeBottom := rect.bottom;
      lower := Restack(band, mergeBottom, current.bottom);
    }
    ghost var middle := MergeBand(band, mergeTop, mergeBottom, rect);
    assert SplitBand(band, rect) == upper + middle + lower;
    assert dst[..k] == pre + upper;
    next, k := CopyBandWithUnion(dst, k, src, cur, end, mergeTop, mergeBottom, Some(rect), rs, stop);
    assert dst[..k] == pre + upper + middle;
    if rect.bottom < current.bottom {
      next, k := CopyBandWithUnion(dst, k, src, cur, end, mergeBottom, current.bottom, None, rs, stop);
    }
    ConcatAssoc(pre, upper, middle, lower);
    assert dst[..k] == pre + upper + middle + lower;
  }

  lemma UnionBandsUnfold(rs: seq<Rect>, band: seq<Rect>, rest: seq<Rect>, rect: Rect)
    requires rs != [] && var n := TopRun(rs, rs[0].top); band == rs[..n] && rest == rs[n..]
    ensures UnionBands(rs, rect) == SplitBand(band, rect) + InterBand(band, rest, rect) + UnionBands(rest, rect)
  {
  }

  /** The band loop of region16_union_rect. */
  method UnionBandsInto(dst: array<Rect>, at: nat, src: array<Rect>, n: nat, rect: Rect, ghost all: seq<Rect>)
      returns (used: nat)
    requires dst != src && n <= src.Length && all == src[..n]
    requires at + |UnionBands(all, rect)| <= dst.Length
    modifies dst
    ensures used == at + |UnionBands(all, rect)| && dst[..used] == old(dst[..at]) + UnionBands(all, rect)
  {
    ghost var rs, whole := src[..], dst[..at] + UnionBands(all, rect);
    used := at;
    var cur := 0;
    assert all[0..] == all;
    while cur < n
      invariant cur <= n && src[..] == rs
      invariant used <= dst.Length && dst[..used] + UnionBands(all[cur..], rect) == whole
    {
      ghost var stop := cur + TopRun(all[cur..], all[cur].top);
      SliceOfDrop(all, cur, stop - cur);
      UnionBandsUnfold(all[cur..], all[cur..stop], all[stop..], rect);
      BandOfPrefix(rs, n, all, cur, stop);
      ConcatAssoc(dst[..used], SplitBand(all[cur..stop], rect), InterBand(all[cur..stop], all[stop..], rect),
          UnionBands(all[stop..], rect));
      cur, used := UnionStep(dst, used, src, cur, n, rect, rs, stop);
    }
  }

  /** region16_union_rect for a non-empty source, up to its result buffer: it never writes outside
      the 4 * (n + 1) rectangles that are allocated. */
  method UnionInto(dst: array<Rect>, src: array<Rect>, n: nat, extents: Rect, rect: Rect)
      returns (used: nat)
    requires dst != src && n <= src.Length && dst.Length == (1 + n) * 4
    modifies dst
    ensures used <= dst.Length && dst[..used] == UnionRaw(RegionValue(extents, src[..n]), rect)
  {
    ghost var all := src[..n];
    UnionCost(RegionValue(extents, all), rect);
    used := 0;
    if rect.top < extents.top {
      Put(dst, 0, Rect(rect.left, rect.top, rect.right, Min(extents.top, rect.bottom)));
      used := 1;
    }
    assert dst[..used] == AboveAll(extents, rect);
    used := UnionBandsInto(dst, used, src, n, rect, all);
    if extents.bottom < rect.bottom {
      Put(dst, used, Rect(rect.left, Max(extents.bottom, rect.top), rect.right, rect.bottom));
      used := used + 1;
    }
  }

  lemma SliceOfPrefix(rs: seq<Rect>, n: nat, i: nat, j: nat)
    requires i <= j <= n <= |rs|
    ensures rs[i..j] == rs[..n][i..j] && rs[..n][i..n] == rs[..n][i..]
  {
    assert forall k :: 0 <= k < j - i ==> rs[i..j][k] == rs[i + k] == rs[..n][i + k] == rs[..n][i..j][k];
  }

  lemma BandOfPrefix(rs: seq<Rect>, n: nat, all: seq<Rect>, cur: nat, stop: nat)
    requires n <= |rs| && all == rs[..n] && cur < n && stop == cur + TopRun(all[cur..], all[cur].top)
    ensures cur < stop <= n
    ensures forall j :: cur <= j < stop ==> rs[j].top == rs[cur].top
    ensures stop < n ==> rs[stop].top != rs[cur].top
    ensures rs[cur..stop] == all[cur..stop] && rs[stop..n] == all[stop..]
  {
    var q := all[cur..];
    assert forall j :: cur <= j < stop ==> rs[j] == q[j - cur];
    assert stop < n ==> rs[stop] == q[stop - cur];
    SliceOfPrefix(rs, n, cur, stop);
    SliceOfPrefix(rs, n, stop, n);
  }

  /** One iteration of the band loop of region16_union_rect. */
  method UnionStep(dst: array<Rect>, at: nat, src: array<Rect>, cur: nat, end: nat, rect: Rect,
                   ghost rs: seq<Rect>, ghost stop: nat)
      returns (next: nat, k: nat)
    requires dst != src && cur < stop && cur < src.Length && BandRest(src, rs, cur, stop, end, src[cur].top)
    requires at + |SplitBand(rs[cur..stop], rect) + InterBand(rs[cur..stop], rs[stop..end], rect)| <= dst.Length
    modifies dst
    ensures next == stop && k <= dst.Length
    ensures dst[..k] == old(dst[..at]) + SplitBand(rs[cur..stop], rect) + InterBand(rs[cur..stop], rs[stop..end], rect)
  {
    hide SplitBand, BandRange;
    var topInterBand;
    next, k, topInterBand := CopySplitBand(dst, at, src, cur, end, rect, rs, stop);
    if next < end && src[next].top != src[cur].bottom && rect.bottom > src[cur].bottom && rect.top < src[next].top {
      Put(dst, k, Rect(rect.left, topInterBand, rect.right, Min(src[next].top, rect.bottom)));
      k := k + 1;
    }
  }

  // ----- coalescing in place

  /** band_match. */
  method BandMatch(a: array<Rect>, band1: nat, band2: nat, end: nat, ghost stop: nat) returns (matches: bool)
    requires band1 < band2 < end <= a.Length && BandRange(a[..end], band2, stop)
    ensures matches == SameColumns(a[band1..band2], a[band2..stop])
  {
    assert forall j :: 0 <= j < end ==> a[..end][j] == a[j];
    ghost var first, second := a[band1..band2], a[band2..stop];
    var refBand2 := a[band2].top;
    var i, j := band1, band2;
    while i < band2 && j < end && a[j].top == refBand2
      invariant band1 <= i <= band2 && j == band2 + (i - band1) <= stop
      invariant forall k :: 0 <= k < i - band1 ==> first[k].left == second[k].left && first[k].right == second[k].right
    {
      assert first[i - band1] == a[i] && second[i - band1] == a[j];
      if a[i].left != a[j].left || a[i].right != a[j].right {
        return false;
      }
      i, j := i + 1, j + 1;
    }
    if i != band2 {
      return false;
    }
    matches := j == end || a[j].top != refBand2;
  }

  /** Stretches the band at band1 over the next one and closes the gap (MoveMemory). */
  method AbsorbBand(a: array<Rect>, band1: nat, band2: nat, bandItems: nat, end: nat)
    requires band1 < band2 && bandItems == band2 - band1 && band2 + bandItems <= end <= a.Length
    modifies a
    ensures var rs, moved := old(a[..end]), band2 - band1;
            forall k {:trigger a[k]} :: 0 <= k < end - moved ==>
              a[k] == if k < band1 then rs[k]
                      else if k < band2 then rs[k].(bottom := rs[band2].bottom)
                      else rs[k + moved]
  {
    ghost var rs := a[..end];
    var tmp := band1;
    while tmp < band2
      invariant band1 <= tmp <= band2
      invariant forall k :: 0 <= k < end ==>
                  a[k] == if band1 <= k < tmp then rs[k].(bottom := rs[band2].bottom) else rs[k]
    {
      a[tmp] := a[tmp].(bottom := a[band2].bottom);
      tmp := tmp + 1;
    }
    var endBand := band2 + bandItems;
    forall k | 0 <= k < end - endBand {
      a[band2 + k] := a[endBand + k];
    }
    forall k | band2 <= k < end - (band2 - band1)
      ensures a[k] == rs[k + (band2 - band1)]
    {
      var d := k - band2;
      assert a[band2 + d] == rs[endBand + d];
    }
  }

  lemma JoinFirstParts(rs: seq<Rect>, n: nat)
    requires rs != [] && n == BandEnd(rs) && Joins(rs)
    ensures n + n <= |rs| && JoinFirst(rs) == Stretch(rs[..n], rs[n].bottom) + rs[n + n..]
  {
  }

  /** rs[b1..b2) is the leading band of rs[b1..end). */
  lemma SuffixBand(rs: seq<Rect>, b1: nat, b2: nat)
    requires BandRange(rs, b1, b2)
    ensures BandEnd(rs[b1..]) == b2 - b1
    ensures rs[b1..][..b2 - b1] == rs[b1..b2] && rs[b1..][b2 - b1..] == rs[b2..]
  {
    BandRangeRun(rs, b1, b2);
  }

  lemma JoinsInPlace(rs: seq<Rect>, b1: nat, b2: nat, stop: nat)
    requires BandRange(rs, b1, b2) && b2 < |rs| && BandRange(rs, b2, stop)
    ensures Joins(rs[b1..]) <==> rs[b1].bottom == rs[b2].top && SameColumns(rs[b1..b2], rs[b2..stop])
    ensures Joins(rs[b1..]) ==>
              && b2 + (b2 - b1) <= |rs|
              && JoinFirst(rs[b1..]) == Stretch(rs[b1..b2], rs[b2].bottom) + rs[b2 + (b2 - b1)..]
  {
    var q, n := rs[b1..], b2 - b1;
    SuffixBand(rs, b1, b2);
    SuffixBand(rs, b2, stop);
    assert q[n..n + (stop - b2)] == rs[b2..stop];
    if Joins(q) {
      JoinFirstParts(q, n);
      assert q[n + n..] == rs[b2 + n..];
    }
  }

  lemma SimplifyLast(rs: seq<Rect>)
    requires rs != [] && BandEnd(rs) == |rs|
    ensures Simplify(rs) == rs
  {
  }

  lemma SimplifyUnfold(rs: seq<Rect>, band: seq<Rect>, rest: seq<Rect>)
    requires rs != [] && BandEnd(rs) < |rs| && band == rs[..BandEnd(rs)] && rest == rs[BandEnd(rs)..]
    ensures Joins(rs) ==> Simplify(rs) == Simplify(JoinFirst(rs))
    ensures !Joins(rs) ==> Simplify(rs) == band + Simplify(rest)
  {
  }

  /** One turn of the loop of region16_simplify_bands, on the rectangles as a sequence. */
  lemma SimplifyTurn(rs: seq<Rect>, b1: nat, b2: nat, stop: nat)
    requires BandRange(rs, b1, b2) && b2 < |rs| && BandRange(rs, b2, stop)
    ensures var joins := rs[b1].bottom == rs[b2].top && SameColumns(rs[b1..b2], rs[b2..stop]);
            if joins then
              && b2 + (b2 - b1) <= |rs|
              && Simplify(rs[b1..]) == Simplify(Stretch(rs[b1..b2], rs[b2].bottom) + rs[b2 + (b2 - b1)..])
            else
              rs[..b1] + Simplify(rs[b1..]) == rs[..b2] + Simplify(rs[b2..])
  {
    JoinsInPlace(rs, b1, b2, stop);
    TurnUnfold(rs, b1, b2);
    PrefixMiddle(rs, b1, b2, Simplify(rs[b2..]));
  }

  lemma TurnUnfold(rs: seq<Rect>, b1: nat, b2: nat)
    requires BandRange(rs, b1, b2) && b2 < |rs|
    ensures Joins(rs[b1..]) ==> Simplify(rs[b1..]) == Simplify(JoinFirst(rs[b1..]))
    ensures !Joins(rs[b1..]) ==> Simplify(rs[b1..]) == rs[b1..b2] + Simplify(rs[b2..])
  {
    SuffixBand(rs, b1, b2);
    SimplifyUnfold(rs[b1..], rs[b1..b2], rs[b2..]);
  }

  lemma PrefixMiddle<T>(s: seq<T>, i: nat, j: nat, rest: seq<T>)
    requires i <= j <= |s|
    ensures s[..i] + (s[i..j] + rest) == s[..j] + rest
  {
  }

  /** What the loop of region16_simplify_bands keeps constant: the bands that are done, followed
      by what is left once it is coalesced. */
  ghost function Outcome(rs: seq<Rect>, band1: nat): seq<Rect>
    requires band1 <= |rs|
  {
    rs[..band1] + Simplify(rs[band1..])
  }

  /** region16_simplify_bands on the first n rectangles of an array, in place. */
  method SimplifyRects(a: array<Rect>, n: nat) returns (finalNbRects: nat)
    requires n <= a.Length
    modifies a
    ensures finalNbRects <= n && a[..finalNbRects] == Simplify(old(a[..n]))
  {
    if n < 2 {
      if n == 1 { SimplifyLast(a[..n]); }
      return n;
    }
    ghost var goal := Simplify(a[..n]);
    var band1: nat, end: nat := 0, n;
    assert Outcome(a[..end], 0) == goal by {
      assert a[..n][0..] == a[..n] && a[..n][..0] == [];
    }
    while true
      invariant band1 < end <= n && Outcome(a[..end], band1) == goal
      decreases end - band1
    {
      var band2, bandItems := NextBand(a, band1, end);
      if band2 == end {
        LastBandDone(a[..end], band1);
        break;
      }
      band1, end := SimplifyStep(a, band1, band2, bandItems, end);
    }
    finalNbRects := end;
  }

  lemma LastBandDone(rs: seq<Rect>, band1: nat)
    requires BandRange(rs, band1, |rs|)
    ensures Outcome(rs, band1) == rs
  {
    SuffixBand(rs, band1, |rs|);
    SimplifyLast(rs[band1..]);
  }

  lemma ArraySlice(a: array<Rect>, end: nat, i: nat, j: nat)
    requires i <= j <= end <= a.Length
    ensures a[..end][i..j] == a[i..j]
  {
  }

  /** One turn of the loop: band2 is absorbed by band1, or becomes the band to look at. */
  method SimplifyStep(a: array<Rect>, band1: nat, band2: nat, bandItems: nat, end: nat)
      returns (newBand1: nat, newEnd: nat)
    requires band2 < end <= a.Length && BandRange(a[..end], band1, band2) && bandItems == band2 - band1
    modifies a
    ensures newBand1 < newEnd <= end && newEnd - newBand1 < end - band1
    ensures Outcome(a[..newEnd], newBand1) == old(Outcome(a[..end], band1))
  {
    ghost var rs := a[..end];
    ghost var stop := band2 + TopRun(rs[band2..], rs[band2].top);
    BandAt(rs, band2);
    SimplifyTurn(rs, band1, band2, stop);
    var matches := a[band1].bottom == a[band2].top;
    if matches {
      matches := BandMatch(a, band1, band2, end, stop);
      ArraySlice(a, end, band1, band2);
      ArraySlice(a, end, band2, stop);
    }
    if matches {
      newBand1 := band1;
      newEnd := AbsorbTurn(a, band1, band2, bandItems, end);
    } else {
      newBand1, newEnd := band2, end;
    }
  }

  lemma BandAt(rs: seq<Rect>, i: nat)
    requires i < |rs|
    ensures BandRange(rs, i, i + TopRun(rs[i..], rs[i].top))
  {
    var n := TopRun(rs[i..], rs[i].top);
    forall k | i <= k < i + n
      ensures rs[k].top == rs[i].top
    {
      assert rs[i..][k - i] == rs[k];
    }
    assert i + n < |rs| ==> rs[i..][n] == rs[i + n];
  }

  /** The absorbing branch of the loop: keeps what is done and shortens what is left. */
  method AbsorbTurn(a: array<Rect>, band1: nat, band2: nat, bandItems: nat, end: nat) returns (newEnd: nat)
    requires band1 < band2 && bandItems == band2 - band1 && band2 + bandItems <= end <= a.Length
    modifies a
    ensures newEnd == end - (band2 - band1)
    ensures var rs := old(a[..end]);
            && a[..newEnd][..band1] == rs[..band1]
            && a[..newEnd][band1..] == Stretch(rs[band1..band2], rs[band2].bottom) + rs[band2 + (band2 - band1)..]
  {
    ghost var rs := a[..end];
    AbsorbBand(a, band1, band2, bandItems, end);
    newEnd := end - bandItems;
    AbsorbedParts(rs, a[..newEnd], band1, band2);
  }

  lemma AbsorbedParts(rs: seq<Rect>, out: seq<Rect>, band1: nat, band2: nat)
    requires band1 < band2 && band2 + (band2 - band1) <= |rs| && |out| == |rs| - (band2 - band1)
    requires forall k {:trigger out[k]} :: 0 <= k < |out| ==>
               out[k] == if k < band1 then rs[k]
                         else if k < band2 then rs[k].(bottom := rs[band2].bottom)
                         else rs[k + (band2 - band1)]
    ensures out[..band1] == rs[..band1]
    ensures out[band1..] == Stretch(rs[band1..band2], rs[band2].bottom) + rs[band2 + (band2 - band1)..]
  {
    var n, want := band2 - band1, Stretch(rs[band1..band2], rs[band2].bottom) + rs[band2 + (band2 - band1)..];
    forall k | 0 <= k < |out| - band1
      ensures out[band1..][k] == want[k]
    {
      assert out[band1..][k] == out[band1 + k];
      if k < n {
        assert want[k] == rs[band1..band2][k].(bottom := rs[band2].bottom);
      } else {
        assert want[k] == rs[band2 + n..][k - n];
      }
    }
  }

  // ----- the region object

  class Region16 {
    var extents: Rect
    var data: array<Rect>
    var nbRects: nat

    ghost predicate Valid()
      reads this
    {
      nbRects <= data.Length
    }

    ghost function Value(): RegionValue
      reads this, data
      requires Valid()
    {
      RegionValue(extents, data[..nbRects])
    }

    /** region16_init. */
    constructor ()
      ensures Valid() && fresh(data) && Value() == EMPTY_REGION
    {
      extents, nbRects := ZERO_RECT, 0;
      data := new Rect[0];
    }

    /** region16_clear. */
    method Clear()
      modifies this
      ensures Valid() && Value() == EMPTY_REGION && fresh(data)
    {
      extents, nbRects := ZERO_RECT, 0;
      data := new Rect[0];
    }

    /** region16_copy into this region. */
    method CopyFrom(src: Region16)
      requires Valid() && src.Valid()
      modifies this
      ensures Valid() && src.Valid() && Value() == old(src.Value()) && src.Value() == old(src.Value())
    {
      if this == src {
        return;
      }
      extents := src.extents;
      data := new Rect[src.nbRects];
      nbRects := src.nbRects;
      forall i | 0 <= i < src.nbRects {
        data[i] := src.data[i];
      }
      assert data[..nbRects] == src.data[..src.nbRects];
    }

    /** region16_simplify_bands. */
    method SimplifyBands()
      requires Valid()
      modifies this, data
      ensures Valid() && data == old(data)
      ensures Value() == RegionValue(old(extents), Simplify(old(data[..nbRects])))
    {
      nbRects := SimplifyRects(data, nbRects);
    }

    /** region16_union_rect into this region; src may be this region itself. */
    method UnionRectFrom(src: Region16, rect: Rect)
      requires Valid() && src.Valid()
      modifies this
      ensures Valid() && Value() == UnionRect(old(src.Value()), rect)
      ensures WellFormed(old(src.Value())) && rect.NonEmpty() ==>
        WellFormed(Value()) && Points(Value().rects) == Points(old(src.Value()).rects) + RectPoints(rect)
      ensures src != this ==> src.Valid() && src.Value() == old(src.Value())
    {
      if WellFormed(src.Value()) && rect.NonEmpty() {
        UnionIsUnion(src.Value(), rect);
      }
      hide WellFormed, Points, RectPoints;
      if src.nbRects == 0 {
        assert src.data[..0] == [];
        extents := rect;
        data := new Rect[1];
        data[0] := Rect(rect.left, rect.top, rect.right, rect.bottom);
        nbRects := 1;
        assert data[..1] == [rect];
        return;
      }
      var newItems := new Rect[(1 + src.nbRects) * 4];
      var usedRects := UnionInto(newItems, src.data, src.nbRects, src.extents, rect);
      var srcExtents := src.extents;
      extents := Rect(Min(rect.left, srcExtents.left), Min(rect.top, srcExtents.top),
                      Max(rect.right, srcExtents.right), Max(rect.bottom, srcExtents.bottom));
      data, nbRects := newItems, usedRects;
      SimplifyBands();
    }

    /** The loop of region16_intersects_rect over the items above the rectangle's bottom. */
    method MeetsItem(rect: Rect) returns (yes: bool)
      requires Valid()
      ensures yes == AnyMeets(data[..nbRects], rect)
    {
      ghost var rs := data[..nbRects];
      var i := 0;
      assert rs[0..] == rs;
      while i < nbRects && rect.bottom > data[i].top
        invariant i <= nbRects
        invariant AnyMeets(rs, rect) == AnyMeets(rs[i..], rect)
      {
        assert rs[i..][0] == data[i] && rs[i..][1..] == rs[i + 1..];
        if Common(data[i], rect).NonEmpty() {
          return true;
        }
        i := i + 1;
      }
      assert i < nbRects ==> rs[i..][0] == data[i];
      return false;
    }

    /** region16_intersects_rect. */
    method Intersects(rect: Rect) returns (yes: bool)
      requires Valid()
      ensures yes == IntersectsRect(Value(), rect)
      ensures WellFormed(Value()) ==> (yes <==> exists p :: p in Points(Value().rects) && p in RectPoints(rect))
    {
      if WellFormed(Value()) {
        IntersectsIffCommonPoint(Value(), rect);
      }
      hide WellFormed, Points, RectPoints;
      if nbRects == 0 {
        return false;
      }
      if nbRects == 1 {
        return Common(extents, rect).NonEmpty();
      }
      if !Common(extents, rect).NonEmpty() {
        return false;
      }
      yes := MeetsItem(rect);
    }

    /** region16_intersect_rect into this region; src may be this region itself. */
    method IntersectRectFrom(src: Region16, rect: Rect)
      requires Valid() && src.Valid()
      modifies this
      ensures Valid() && Value() == IntersectRect(old(src.Value()), rect)
      ensures WellFormed(old(src.Value())) ==>
        WellFormed(Value()) && Points(Value().rects) == Points(old(src.Value()).rects) * RectPoints(rect)
      ensures src != this ==> src.Valid() && src.Value() == old(src.Value())
    {
      if WellFormed(src.Value()) {
        IntersectIsIntersection(src.Value(), rect);
      }
      hide WellFormed, Points, RectPoints;
      if src.nbRects == 0 {
        Clear();
        return;
      }
      if src.nbRects == 1 {
        var common := Common(src.extents, rect);
        Clear();
        if common.NonEmpty() {
          UnionRectFrom(this, common);
        }
        return;
      }
      var newItems := new Rect[src.nbRects];
      var usedRects, newExtents := ClipInto(newItems, src.data, src.nbRects, rect);
      data, nbRects, extents := newItems, usedRects, newExtents;
      SimplifyBands();
    }
  }

  lemma BoxOfSnoc(rs: seq<Rect>, c: Rect)
    ensures BoxOf(rs + [c]) == GrowBox(BoxOf(rs), c)
  {
    assert (rs + [c])[..|rs|] == rs;
  }

  lemma ClipAllStep(rs: seq<Rect>, rect: Rect, i: nat)
    requires i < |rs| && rect.bottom > rs[i].top
    ensures ClipAll(rs[i..], rect) ==
            (if Common(rs[i], rect).NonEmpty() then [Common(rs[i], rect)] else []) + ClipAll(rs[i + 1..], rect)
  {
    assert rs[i..][0] == rs[i] && rs[i..][1..] == rs[i + 1..];
  }

  lemma {:induction false} ClipAllLength(rs: seq<Rect>, rect: Rect)
    ensures |ClipAll(rs, rect)| <= |rs|
  {
    if rs != [] { ClipAllLength(rs[1..], rect); }
  }

  /** The accumulation loop of region16_intersect_rect. */
  method ClipInto(dst: array<Rect>, src: array<Rect>, n: nat, rect: Rect) returns (used: nat, box: Rect)
    requires dst != src && n <= src.Length && n <= dst.Length
    modifies dst
    ensures used <= dst.Length && dst[..used] == ClipAll(src[..n], rect) && box == BoxOf(dst[..used])
  {
    ghost var rs := src[..n];
    used, box := 0, ZERO_RECT;
    var i := 0;
    assert rs[0..] == rs;
    while i < n && rect.bottom > src[i].top
      invariant i <= n && src[..n] == rs && used <= i
      invariant dst[..used] + ClipAll(rs[i..], rect) == ClipAll(rs, rect)
      invariant box == BoxOf(dst[..used])
    {
      ClipAllStep(rs, rect, i);
      var common := Common(src[i], rect);
      if common.NonEmpty() {
        BoxOfSnoc(dst[..used], common);
        Put(dst, used, common);
        used := used + 1;
        if IsEmptyRect(box) {
          box := common;
        } else {
          box := Rect(Min(common.left, box.left), Min(common.top, box.top), Max(common.right, box.right),
              Max(common.bottom, box.bottom));
        }
      }
      i := i + 1;
    }
    assert ClipAll(rs[i..], rect) == [];
  }
}
