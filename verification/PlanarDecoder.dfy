/** The two parsers of planar plane data: the skip parser, which validates, and the decoder, which
    writes one colour channel of an interleaved image in place (libfreerdp/codec/planar.c). */
module PlanarDecoder {
  import opened Basics
  import opened Bits
  import opened PlanarRle
  import opened PlanarPlane

  // ----- the skip parser

  /** The rest of the stream after w more symbols of a scanline and h more scanlines. */
  function PlaneRest(b: seq<byte>, left: nat, symbol: byte, w: nat, h: nat): Option<seq<byte>> {
    match ExpandRow(b, left, symbol)
    case None => None
    case Some((_, rest)) =>
      match ExpandPlane(rest, w, h)
      case None => None
      case Some((_, rest')) => Some(rest')
  }

  lemma PlaneRestStart(b: seq<byte>, w: nat, h: nat)
    requires h > 0
    ensures var r := ExpandPlane(b, w, h);
            PlaneRest(b, w, 0, w, h - 1) == if r.Some? then Some(r.value.1) else None
  {
  }

  lemma PlaneRestStep(b: seq<byte>, left: nat, symbol: byte, w: nat, h: nat)
    requires left > 0
    ensures b == [] ==> PlaneRest(b, left, symbol, w, h) == None
    ensures b != [] ==>
            var (raw, run) := Lengths(b[0]);
            if raw + run > left || 1 + raw > |b| then PlaneRest(b, left, symbol, w, h) == None
            else PlaneRest(b, left, symbol, w, h) ==
                 PlaneRest(b[1 + raw..], left - raw - run, if raw > 0 then b[raw] else symbol, w, h)
  {
    hide ExpandPlane, Lengths;
  }

  lemma PlaneRestNext(b: seq<byte>, symbol: byte, w: nat, h: nat)
    ensures h == 0 ==> PlaneRest(b, 0, symbol, w, h) == Some(b)
    ensures h > 0 ==> PlaneRest(b, 0, symbol, w, h) == PlaneRest(b, w, 0, w, h - 1)
  {
    if h > 0 { PlaneRestStart(b, w, h); }
  }

  /** planar_skip_plane_rle: the number of bytes that hold h scanlines of w symbols, or -1. */
  method SkipPlaneRle(src: seq<byte>, nWidth: nat, nHeight: nat) returns (n: int)
    ensures match ExpandPlane(src, nWidth, nHeight)
            case None => n == -1
            case Some((_, rest)) => n == |src| - |rest|
  {
    hide ExpandPlane, ExpandRow, PlaneRest, Lengths;
    if nHeight == 0 {
      NoRows(src, nWidth);
      return 0;
    }
    PlaneRestStart(src, nWidth, nHeight);
    ghost var goal := PlaneRest(src, nWidth, 0, nWidth, nHeight - 1);
    var p: nat, y: nat := 0, 0;
    assert src[0..] == src;
    while y < nHeight
      invariant y <= nHeight && p <= |src|
      invariant y < nHeight ==> goal == PlaneRest(src[p..], nWidth, 0, nWidth, nHeight - 1 - y)
      invariant y == nHeight ==> goal == Some(src[p..])
    {
      var x: nat := 0;
      ghost var symbol: byte := 0;
      while x < nWidth
        invariant x <= nWidth && p <= |src|
        invariant goal == PlaneRest(src[p..], nWidth - x, symbol, nWidth, nHeight - 1 - y)
        decreases |src| - p
      {
        PlaneRestStep(src[p..], nWidth - x, symbol, nWidth, nHeight - 1 - y);
        if p >= |src| {
          return -1;
        }
        var (cRawBytes, nRunLength) := Lengths(src[p]);
        ghost var p0 := p;
        p := p + 1 + cRawBytes;
        x := x + cRawBytes + nRunLength;
        if x > nWidth {
          return -1;
        }
        if p > |src| {
          return -1;
        }
        assert src[p0..][1 + cRawBytes..] == src[p..];
        symbol := if cRawBytes > 0 then src[p - 1] else symbol;
      }
      PlaneRestNext(src[p..], symbol, nWidth, nHeight - 1 - y);
      y := y + 1;
    }
    n := p;
  }

  lemma NoRows(b: seq<byte>, w: nat)
    ensures ExpandPlane(b, w, 0) == Some(([], b))
  {
  }

  // ----- the decoder on any input

  /** How planar_decompress_plane_rle ends: with the bytes left over, with -1, or in C code that has gone
      past the end of its row or of its input. */
  datatype Outcome = Finished(rest: seq<byte>) | Rejected | RowOverrun | InputOverrun

  /** Its control flow on any input, at pixel w - left of a scanline with `later` scanlines to come. The
      check on the row compares the four-byte distance to the pixel with a number of pixels. */
  function PlaneOutcome(b: seq<byte>, w: nat, left: nat, later: nat): (o: Outcome)
    requires left <= w
    ensures o.Finished? ==> |o.rest| <= |b|
    decreases later, left, |b|
  {
    if left == 0 then
      if later == 0 then Finished(b) else PlaneOutcome(b, w, w, later - 1)
    else if b == [] then Rejected
    else
      var (raw, run) := Lengths(b[0]);
      if 4 * (w - left) + raw + run > 4 * w then Rejected
      else if raw + run > left then RowOverrun
      else if 1 + raw > |b| then InputOverrun
      else PlaneOutcome(b[1 + raw..], w, left - raw - run, later)
  }

  /** A control byte that asks for more pixels than are left in the row overruns it as long as it asks for
      at most four times as many; only beyond that does the check reject it. */
  lemma ControlOutcome(b: seq<byte>, w: nat, left: nat, later: nat)
    requires 0 < left <= w && b != []
    ensures var (raw, run) := Lengths(b[0]);
            && (left < raw + run <= 4 * left ==> PlaneOutcome(b, w, left, later) == RowOverrun)
            && (raw + run > 4 * left ==> PlaneOutcome(b, w, left, later) == Rejected)
  {
    hide Lengths;
  }

  /** Where the decoder is, it finishes exactly if the skip parser does, with the same bytes left. */
  lemma {:induction false} FinishesLikeSkip(b: seq<byte>, w: nat, left: nat, symbol: byte, later: nat)
    requires left <= w
    ensures match PlaneRest(b, left, symbol, w, later)
            case Some(rest) => PlaneOutcome(b, w, left, later) == Finished(rest)
            case None => !PlaneOutcome(b, w, left, later).Finished?
    decreases later, left, |b|
  {
    hide PlaneRest, Lengths;
    if left == 0 {
      PlaneRestNext(b, symbol, w, later);
      if later > 0 { FinishesLikeSkip(b, w, w, 0, later - 1); }
    } else {
      PlaneRestStep(b, left, symbol, w, later);
      if b != [] {
        var (raw, run) := Lengths(b[0]);
        if raw + run <= left && 1 + raw <= |b| {
          FinishesLikeSkip(b[1 + raw..], w, left - raw - run, if raw > 0 then b[raw] else symbol, later);
        }
      }
    }
  }

  /** On any input the decoder stops, and it finishes all its rows inside them and inside its input exactly
      when the skip parser accepts the input. */
  lemma DecoderFinishesIff(b: seq<byte>, w: nat, h: nat)
    requires h > 0
    ensures match ExpandPlane(b, w, h)
            case Some((_, rest)) => PlaneOutcome(b, w, w, h - 1) == Finished(rest)
            case None => !PlaneOutcome(b, w, w, h - 1).Finished?
  {
    hide ExpandPlane, PlaneRest, PlaneOutcome;
    PlaneRestStart(b, w, h);
    FinishesLikeSkip(b, w, w, 0, h - 1);
  }

  /** The decoder is given the bytes the skip parser has counted, and finishes with none left over. */
  lemma DecoderOnCounted(b: seq<byte>, w: nat, h: nat)
    requires h > 0 && ExpandPlane(b, w, h).Some?
    ensures var (rows, rest) := ExpandPlane(b, w, h).value;
            var counted := b[..|b| - |rest|];
            ExpandPlane(counted, w, h) == Some((rows, [])) && PlaneOutcome(counted, w, w, h - 1) == Finished([])
  {
    hide ExpandPlane, PlaneOutcome;
    var rest := ExpandPlane(b, w, h).value.1;
    var counted := b[..|b| - |rest|];
    PlanePrefix(b, w, h, []);
    assert counted + [] == counted;
    DecoderFinishesIff(counted, w, h);
  }

  /** A run of three in a plane of one pixel: the skip parser rejects it and the decoder leaves the row. */
  lemma RowCanBeOverrun()
    ensures ExpandPlane([3], 1, 1) == None && PlaneOutcome([3], 1, 1, 0) == RowOverrun
  {
    assert Lengths(3) == (0, 3);
  }

  // ----- the decoder, one scanline

  /** Byte j of the image belongs to the first x pixels of the scanline whose channel starts at base. */
  predicate InRow(j: int, base: int, x: int) {
    base <= j < base + 4 * x && (j - base) % 4 == 0
  }

  /** What a symbol becomes: itself on the first scanline, a difference to the pixel above otherwise. */
  function Pixel(image: seq<byte>, prev: Option<nat>, symbol: byte, x: nat): byte
    requires prev.Some? ==> prev.value + 4 * x < |image|
  {
    match prev
    case None => symbol
    case Some(p) => (image[p + 4 * x] + UnZigZag(symbol)) % 256
  }

  /** The scanline at base and the one above it lie in the image and do not overlap. */
  predicate RowsInImage(length: nat, base: nat, prev: Option<nat>, w: nat) {
    && base + 4 * w <= length + 3
    && (prev.Some? ==> prev.value + 4 * w <= length + 3 && (prev.value + 4 * w <= base || base + 4 * w <= prev.value))
  }

  /** The first x pixels are decoded and nothing else has changed since `was`. */
  ghost predicate RowDone(image: seq<byte>, was: seq<byte>, base: nat, prev: Option<nat>, row: Row, x: int) {
    && 0 <= x <= |row| && |image| == |was| && RowsInImage(|was|, base, prev, |row|)
    && (forall k {:trigger row[k]} :: 0 <= k < x ==> image[base + 4 * k] == Pixel(was, prev, row[k], k))
    && (forall j :: 0 <= j < |image| && !InRow(j, base, x) ==> image[j] == was[j])
  }

  /** The value added or stored for a symbol. */
  function PixelValue(prev: Option<nat>, symbol: byte): int {
    if prev.None? then symbol else UnZigZag(symbol)
  }

  /** `*dstp = ...; dstp += 4; x++`: the pixel the two inner loops write. */
  method PutPixel(dst: array<byte>, base: nat, prev: Option<nat>, x: nat, pixel: int,
                  ghost was: seq<byte>, ghost row: Row)
    requires x < |row| && RowDone(dst[..], was, base, prev, row, x) && pixel == PixelValue(prev, row[x])
    modifies dst
    ensures RowDone(dst[..], was, base, prev, row, x + 1)
  {
    hide UnZigZag;
    ghost var before := dst[..];
    match prev
    case None =>
      dst[base + 4 * x] := pixel % 256;
    case Some(p) =>
      assert before[p + 4 * x] == was[p + 4 * x];
      dst[base + 4 * x] := (dst[p + 4 * x] + pixel) % 256;
    assert dst[..] == before[base + 4 * x := dst[base + 4 * x]];
    PixelKept(before, dst[..], was, base, prev, row, x);
  }

  lemma PixelKept(before: seq<byte>, after: seq<byte>, was: seq<byte>, base: nat, prev: Option<nat>, row: Row, x: nat)
    requires x < |row| && RowDone(before, was, base, prev, row, x)
    requires |after| == |before| && after == before[base + 4 * x := Pixel(was, prev, row[x], x)]
    ensures RowDone(after, was, base, prev, row, x + 1)
  {
    hide UnZigZag, Pixel;
    forall j | 0 <= j < |after| && !InRow(j, base, x + 1)
      ensures after[j] == was[j]
    {
      assert j != base + 4 * x;
      assert !InRow(j, base, x);
    }
  }

  /** What one control byte contributes to a scanline. */
  lemma RowTurn(b: seq<byte>, left: nat, symbol: byte, row: Row, rest: seq<byte>)
    requires left > 0 && ExpandRow(b, left, symbol) == Some((row, rest))
    ensures b != []
    ensures var (raw, run) := Lengths(b[0]);
            && raw + run <= left == |row| && 1 + raw <= |b|
            && (forall k :: 0 <= k < raw ==> row[k] == b[1 + k])
            && (var last := if raw > 0 then b[raw] else symbol;
                && (forall k :: raw <= k < raw + run ==> row[k] == last)
                && ExpandRow(b[1 + raw..], left - raw - run, last) == Some((row[raw + run..], rest)))
  {
    hide Lengths, ExpandRow;
    ExpandUnfold(b, left, symbol);
    var (raw, run) := Lengths(b[0]);
    var last := if raw > 0 then b[raw] else symbol;
    var tail := ExpandRow(b[1 + raw..], left - raw - run, last).value.0;
    RowParts(b[1..1 + raw], Repeat(last, run), tail);
  }

  lemma ExpandUnfold(b: seq<byte>, left: nat, symbol: byte)
    requires left > 0 && ExpandRow(b, left, symbol).Some?
    ensures b != [] && Lengths(b[0]).0 + Lengths(b[0]).1 <= left && 1 + Lengths(b[0]).0 <= |b|
    ensures var (raw, run) := Lengths(b[0]);
            var last := if raw > 0 then b[raw] else symbol;
            ExpandRow(b, left, symbol)
              == Prepend(b[1..1 + raw] + Repeat(last, run), ExpandRow(b[1 + raw..], left - raw - run, last))
  {
    hide Lengths, Repeat;
  }

  lemma RowParts(lit: seq<byte>, run: seq<byte>, tail: seq<byte>)
    ensures var row := lit + run + tail;
            && (forall k :: 0 <= k < |lit| ==> row[k] == lit[k])
            && (forall k :: |lit| <= k < |lit| + |run| ==> row[k] == run[k - |lit|])
            && row[|lit| + |run|..] == tail
  {
  }

  /** One scanline of planar_decompress_plane_rle. The stream has passed the skip parser, so the
      decoder's own checks on it cannot fail. */
  method DecodeScanline(src: seq<byte>, sp0: nat, dst: array<byte>, base: nat, prev: Option<nat>, nWidth: nat,
                        ghost row: Row, ghost rest: seq<byte>)
      returns (sp: nat)
    requires sp0 <= |src| && ExpandRow(src[sp0..], nWidth, 0) == Some((row, rest))
    requires RowsInImage(dst.Length, base, prev, nWidth)
    modifies dst
    ensures sp <= |src| && src[sp..] == rest
    ensures RowDone(dst[..], old(dst[..]), base, prev, row, nWidth)
  {
    hide ExpandRow, Lengths, UnZigZag, RowDone;
    ghost var was := dst[..];
    StartRow(was, base, prev, row);
    sp := sp0;
    var x: nat, pixel: int := 0, 0;
    ghost var symbol: byte := 0;
    ZeroPixel(prev);
    assert row[0..] == row;
    while x < nWidth
      invariant x <= nWidth == |row| && sp <= |src|
      invariant ExpandRow(src[sp..], nWidth - x, symbol) == Some((row[x..], rest))
      invariant pixel == PixelValue(prev, symbol)
      invariant RowDone(dst[..], was, base, prev, row, x)
      decreases |src| - sp
    {
      sp, x, pixel, symbol := DecodeControl(src, sp, dst, base, prev, x, pixel, was, row, rest, symbol);
    }
    EndRow(src[sp..], symbol, row, rest);
  }

  /** One control byte with its raw bytes and its run. */
  method DecodeControl(src: seq<byte>, sp0: nat, dst: array<byte>, base: nat, prev: Option<nat>, x0: nat, pixel0: int,
                       ghost was: seq<byte>, ghost row: Row, ghost rest: seq<byte>, ghost symbol0: byte)
      returns (sp: nat, x: nat, pixel: int, ghost symbol: byte)
    requires x0 < |row| && sp0 <= |src|
    requires ExpandRow(src[sp0..], |row| - x0, symbol0) == Some((row[x0..], rest))
    requires pixel0 == PixelValue(prev, symbol0) && RowDone(dst[..], was, base, prev, row, x0)
    modifies dst
    ensures sp0 < sp <= |src| && x <= |row|
    ensures ExpandRow(src[sp..], |row| - x, symbol) == Some((row[x..], rest))
    ensures pixel == PixelValue(prev, symbol) && RowDone(dst[..], was, base, prev, row, x)
  {
    hide ExpandRow, Lengths, UnZigZag, RowDone;
    ghost var b := src[sp0..];
    RowTurn(b, |row| - x0, symbol0, row[x0..], rest);
    var (cRawBytes, nRunLength) := Lengths(src[sp0]);
    symbol := if cRawBytes > 0 then b[cRawBytes] else symbol0;
    assert 4 * x0 + cRawBytes + nRunLength <= |row| * 4;
    sp, x, pixel := CopyRaws(src, sp0 + 1, cRawBytes, dst, base, prev, x0, pixel0, was, row);
    assert forall k :: x <= k < x + nRunLength ==> row[k] == row[x0..][k - x0];
    x := RepeatPixel(nRunLength, dst, base, prev, x, pixel, was, row, symbol);
    assert b[1 + cRawBytes..] == src[sp..] && row[x0..][cRawBytes + nRunLength..] == row[x..];
  }

  lemma StartRow(was: seq<byte>, base: nat, prev: Option<nat>, row: Row)
    requires RowsInImage(|was|, base, prev, |row|)
    ensures RowDone(was, was, base, prev, row, 0)
  {
  }

  lemma ZeroPixel(prev: Option<nat>)
    ensures PixelValue(prev, 0) == 0
  {
  }

  lemma EndRow(b: seq<byte>, symbol: byte, row: Row, rest: seq<byte>)
    requires ExpandRow(b, 0, symbol) == Some((row[|row|..], rest))
    ensures b == rest
  {
  }

  /** The loop over the raw bytes of a control byte. */
  method CopyRaws(src: seq<byte>, sp0: nat, count: nat, dst: array<byte>, base: nat, prev: Option<nat>, x0: nat,
                  pixel0: int, ghost was: seq<byte>, ghost row: Row)
      returns (sp: nat, x: nat, pixel: int)
    requires sp0 + count <= |src| && x0 + count <= |row| && RowDone(dst[..], was, base, prev, row, x0)
    requires sp0 > 0 && forall k :: 0 <= k < count ==> row[x0..][k] == src[sp0 - 1..][1 + k]
    modifies dst
    ensures sp == sp0 + count && x == x0 + count && RowDone(dst[..], was, base, prev, row, x)
    ensures pixel == if count > 0 then PixelValue(prev, src[sp0 - 1 + count]) else pixel0
  {
    hide UnZigZag, RowDone;
    var cRawBytes := count;
    sp, x, pixel := sp0, x0, pixel0;
    while cRawBytes > 0
      invariant 0 <= cRawBytes <= count && sp == sp0 + (count - cRawBytes) && x == x0 + (count - cRawBytes)
      invariant RowDone(dst[..], was, base, prev, row, x)
      invariant pixel == if cRawBytes < count then PixelValue(prev, src[sp - 1]) else pixel0
    {
      assert row[x] == row[x0..][count - cRawBytes] == src[sp0 - 1..][1 + (count - cRawBytes)] == src[sp];
      if prev.None? {
        pixel := src[sp];
      } else if src[sp] % 2 == 1 {
        pixel := -(src[sp] as int / 2 + 1);
      } else {
        pixel := src[sp] / 2;
      }
      UnZigZagIs(src[sp]);
      PutPixel(dst, base, prev, x, pixel, was, row);
      sp, x, cRawBytes := sp + 1, x + 1, cRawBytes - 1;
    }
  }

  lemma UnZigZagIs(v: byte)
    ensures UnZigZag(v) == if v % 2 == 1 then -(v / 2 + 1) else v / 2
  {
  }

  /** The loop over the run of a control byte. */
  method RepeatPixel(count: nat, dst: array<byte>, base: nat, prev: Option<nat>, x0: nat, pixel: int,
                     ghost was: seq<byte>, ghost row: Row, ghost symbol: byte)
      returns (x: nat)
    requires x0 + count <= |row| && RowDone(dst[..], was, base, prev, row, x0)
    requires forall k :: x0 <= k < x0 + count ==> row[k] == symbol
    requires pixel == PixelValue(prev, symbol)
    modifies dst
    ensures x == x0 + count && RowDone(dst[..], was, base, prev, row, x)
  {
    hide UnZigZag, RowDone;
    var nRunLength := count;
    x := x0;
    while nRunLength > 0
      invariant 0 <= nRunLength <= count && x == x0 + (count - nRunLength)
      invariant RowDone(dst[..], was, base, prev, row, x)
    {
      PutPixel(dst, base, prev, x, pixel, was, row);
      x, nRunLength := x + 1, nRunLength - 1;
    }
  }

  // ----- the decoder, all scanlines

  /** Where a plane goes in an image of four-byte pixels. */
  datatype Layout = Layout(step: nat, xDst: nat, yDst: nat, width: nat, height: nat, channel: nat, vFlip: bool) {
    /** The image row of the k-th scanline of the stream. */
    function RowOf(k: nat): int {
      if vFlip then height - 1 - k else k
    }

    function Base(k: nat): int {
      (yDst + RowOf(k)) * step + xDst * 4 + channel
    }

    /** The byte of the channel for pixel x of row y of the rectangle. */
    function At(x: nat, y: nat): int {
      (yDst + y) * step + xDst * 4 + channel + 4 * x
    }

    /** The rectangle lies inside the stride and the image. */
    predicate Inside(length: nat) {
      channel < 4 && (xDst + width) * 4 <= step && (yDst + height) * step <= length
    }
  }

  /** Scanlines of the layout stay in the image and do not overlap. */
  lemma BasesApart(l: Layout, length: nat, k: nat, r: nat)
    requires l.Inside(length) && k < l.height && r < l.height
    ensures 0 <= l.Base(k) && l.Base(k) + 4 * l.width <= length + 3
    ensures k != r ==> l.Base(k) + 4 * l.width <= l.Base(r) || l.Base(r) + 4 * l.width <= l.Base(k)
  {
    var a, b := l.yDst + l.RowOf(k), l.yDst + l.RowOf(r);
    MulMono(0, a, l.step);
    MulMono(a + 1, l.yDst + l.height, l.step);
    Distribute(a, 1, l.step);
    Distribute(b, 1, l.step);
    if a < b { MulMono(a + 1, b, l.step); }
    if b < a { MulMono(b + 1, a, l.step); }
  }

  /** The first k scanlines are in place and every other byte is as it was. */
  ghost predicate PlaneDone(image: seq<byte>, was: seq<byte>, l: Layout, rows: seq<Row>, k: int) {
    && |image| == |was| && l.Inside(|was|) && 0 <= k <= |rows| == l.height && Uniform(rows, l.width)
    && (forall r :: 0 <= r < k ==> ScanlineIs(image, l.Base(r), rows[r]))
    && (forall j :: 0 <= j < |image| && (forall r :: 0 <= r < k ==> !InRow(j, l.Base(r), l.width)) ==>
          image[j] == was[j])
  }

  ghost predicate ScanlineIs(image: seq<byte>, base: int, row: Row) {
    0 <= base && base + 4 * |row| <= |image| + 3
    && forall x {:trigger row[x]} :: 0 <= x < |row| ==> image[base + 4 * x] == row[x]
  }

  /** Decoding scanline k on top of k finished ones finishes k + 1. */
  lemma ScanlineAdded(before: seq<byte>, after: seq<byte>, was: seq<byte>, l: Layout, symbols: seq<Row>, k: nat)
    requires Uniform(symbols, l.width) && |symbols| == l.height && k < l.height
    requires PlaneDone(before, was, l, Undelta(symbols, l.width), k) && l.Base(k) >= 0 && (k > 0 ==> l.Base(k - 1) >= 0)
    requires RowDone(after, before, l.Base(k), if k == 0 then None else Some(l.Base(k - 1)), symbols[k], l.width)
    ensures PlaneDone(after, was, l, Undelta(symbols, l.width), k + 1)
  {
    hide Undelta, UnZigZag, RowDone, ScanlineIs, Layout.Base, Layout.RowOf;
    var rows := Undelta(symbols, l.width);
    OnlyTheRow(before, after, l.Base(k), if k == 0 then None else Some(l.Base(k - 1)), symbols[k]);
    forall r | 0 <= r < k
      ensures ScanlineIs(after, l.Base(r), rows[r])
    {
      BasesApart(l, |was|, k, r);
      ScanlineKept(before, after, l.Base(r), rows[r], l.Base(k));
    }
    NewScanline(before, after, l, symbols, rows, k);
    forall j | 0 <= j < |after| && (forall r :: 0 <= r < k + 1 ==> !InRow(j, l.Base(r), l.width))
      ensures after[j] == was[j]
    {
      assert !InRow(j, l.Base(k), l.width);
    }
  }

  lemma OnlyTheRow(before: seq<byte>, after: seq<byte>, base: nat, prev: Option<nat>, row: Row)
    requires RowDone(after, before, base, prev, row, |row|)
    ensures |after| == |before| && forall j :: 0 <= j < |after| && !InRow(j, base, |row|) ==> after[j] == before[j]
  {
    hide UnZigZag;
  }

  lemma ScanlineKept(before: seq<byte>, after: seq<byte>, at: int, row: Row, base: nat)
    requires ScanlineIs(before, at, row) && |after| == |before|
    requires at + 4 * |row| <= base || base + 4 * |row| <= at
    requires forall j :: 0 <= j < |after| && !InRow(j, base, |row|) ==> after[j] == before[j]
    ensures ScanlineIs(after, at, row)
  {
    forall x | 0 <= x < |row|
      ensures after[at + 4 * x] == row[x]
    {
      assert before[at + 4 * x] == row[x];
      assert !InRow(at + 4 * x, base, |row|);
    }
  }

  lemma NewScanline(before: seq<byte>, after: seq<byte>, l: Layout, symbols: seq<Row>, rows: seq<Row>, k: nat)
    requires Uniform(symbols, l.width) && |symbols| == l.height && k < l.height && rows == Undelta(symbols, l.width)
    requires l.Base(k) >= 0 && (k > 0 ==> l.Base(k - 1) >= 0 && ScanlineIs(before, l.Base(k - 1), rows[k - 1]))
    requires RowDone(after, before, l.Base(k), if k == 0 then None else Some(l.Base(k - 1)), symbols[k], l.width)
    ensures ScanlineIs(after, l.Base(k), rows[k])
  {
    hide Undelta, UndeltaRow, RowDone, ScanlineIs, Layout.Base, Layout.RowOf;
    if k == 0 {
      FirstRow(before, after, l.Base(k), symbols[k]);
    } else {
      assert rows[k] == UndeltaRow(rows[k - 1], symbols[k]);
      LaterRow(before, after, l.Base(k), l.Base(k - 1), rows[k - 1], symbols[k]);
    }
  }

  lemma FirstRow(before: seq<byte>, after: seq<byte>, base: nat, symbols: Row)
    requires RowDone(after, before, base, None, symbols, |symbols|)
    ensures ScanlineIs(after, base, symbols)
  {
    hide UnZigZag;
    forall x | 0 <= x < |symbols|
      ensures after[base + 4 * x] == symbols[x]
    {
      assert after[base + 4 * x] == Pixel(before, None, symbols[x], x);
    }
  }

  lemma LaterRow(before: seq<byte>, after: seq<byte>, base: nat, above: nat, prev: Row, symbols: Row)
    requires |prev| == |symbols| && ScanlineIs(before, above, prev)
    requires RowDone(after, before, base, Some(above), symbols, |symbols|)
    ensures ScanlineIs(after, base, UndeltaRow(prev, symbols))
  {
    hide UnZigZag;
    var row := UndeltaRow(prev, symbols);
    forall x | 0 <= x < |row|
      ensures after[base + 4 * x] == row[x]
    {
      assert before[above + 4 * x] == prev[x];
      assert after[base + 4 * x] == Pixel(before, Some(above), symbols[x], x);
    }
  }

  /** planar_decompress_plane_rle on a stream that the skip parser accepts: it consumes exactly the
      bytes the skip parser counted, writes the reconstructed plane into its channel, and leaves
      every other byte of the image alone. */
  method DecompressPlaneRle(src: seq<byte>, dst: array<byte>, l: Layout) returns (consumed: nat)
    requires ExpandPlane(src, l.width, l.height).Some? && l.Inside(dst.Length)
    modifies dst
    ensures var (symbols, rest) := ExpandPlane(src, l.width, l.height).value;
            && consumed == |src| - |rest|
            && PlaneDone(dst[..], old(dst[..]), l, Undelta(symbols, l.width), l.height)
  {
    hide ExpandPlane, ExpandRow, Undelta, RowDone, PlaneDone;
    ghost var was := dst[..];
    ghost var (symbols, rest) := ExpandPlane(src, l.width, l.height).value;
    var sp: nat, k: nat := 0, 0;
    StartPlane(was, l, Undelta(symbols, l.width));
    assert src[0..] == src && symbols[0..] == symbols;
    while k < l.height
      invariant k <= l.height && sp <= |src|
      invariant ExpandPlane(src[sp..], l.width, l.height - k) == Some((symbols[k..], rest))
      invariant PlaneDone(dst[..], was, l, Undelta(symbols, l.width), k)
    {
      ghost var before := dst[..];
      NextScanline(src[sp..], l.width, l.height - k, symbols[k..], rest);
      BasesApart(l, dst.Length, k, if k == 0 then 0 else k - 1);
      var prev := None;
      if k > 0 {
        BasesApart(l, dst.Length, k - 1, k);
        prev := Some(l.Base(k - 1));
      }
      ghost var rest := ExpandRow(src[sp..], l.width, 0).value.1;
      sp := DecodeScanline(src, sp, dst, l.Base(k), prev, l.width, symbols[k], rest);
      ScanlineAdded(before, dst[..], was, l, symbols, k);
      assert symbols[k..][1..] == symbols[k + 1..];
      k := k + 1;
    }
    PlaneEnd(src[sp..], l.width, symbols[k..], rest);
    consumed := sp;
  }

  lemma StartPlane(was: seq<byte>, l: Layout, rows: seq<Row>)
    requires l.Inside(|was|) && |rows| == l.height && Uniform(rows, l.width)
    ensures PlaneDone(was, was, l, rows, 0)
  {
  }

  lemma NextScanline(b: seq<byte>, w: nat, h: nat, rows: seq<Row>, rest: seq<byte>)
    requires h > 0 && ExpandPlane(b, w, h) == Some((rows, rest))
    ensures rows != [] && ExpandRow(b, w, 0).Some? && ExpandRow(b, w, 0).value.0 == rows[0]
    ensures ExpandPlane(ExpandRow(b, w, 0).value.1, w, h - 1) == Some((rows[1..], rest))
  {
    hide ExpandRow;
    var row, tail := ExpandRow(b, w, 0).value.0, ExpandPlane(ExpandRow(b, w, 0).value.1, w, h - 1).value.0;
    assert ([row] + tail)[1..] == tail;
  }

  lemma PlaneEnd(b: seq<byte>, w: nat, rows: seq<Row>, rest: seq<byte>)
    requires ExpandPlane(b, w, 0) == Some((rows, rest))
    ensures b == rest
  {
  }
}
