/** One colour plane through the planar codec: delta, run-length code, skip parser and decoder run one after
    the other on their buffers (libfreerdp/codec/planar.c). */
module PlanarCodec {
  import opened Basics
  import opened Bits
  import opened PlanarRle
  import opened PlanarPlane
  import opened Planar
  import opened PlanarDecoder

  /** The code of too few rows is rejected. */
  lemma {:induction false} PrefixRejected(rows: seq<Row>, w: nat, h: nat)
    requires Uniform(rows, w) && w > 0 && |rows| < h
    ensures ExpandPlane(EncodePlane(rows), w, h) == None
    decreases |rows|
  {
    hide EncodeRow, ExpandRow, ExpandPlane;
    if rows == [] {
      EmptyRejected(w);
      NoFirstRow([], w, h);
    } else {
      var code, rest := EncodePlane(rows), EncodePlane(rows[1..]);
      RowRoundTrip(rows[0], rest);
      PrefixRejected(rows[1..], w, h - 1);
      NoLaterRows(code, w, h, rows[0], rest);
    }
  }

  lemma NoFirstRow(b: seq<byte>, w: nat, h: nat)
    requires h > 0 && ExpandRow(b, w, 0) == None
    ensures ExpandPlane(b, w, h) == None
  {
    hide ExpandRow;
  }

  lemma NoLaterRows(b: seq<byte>, w: nat, h: nat, row: Row, rest: seq<byte>)
    requires h > 0 && ExpandRow(b, w, 0) == Some((row, rest)) && ExpandPlane(rest, w, h - 1) == None
    ensures ExpandPlane(b, w, h) == None
  {
    hide ExpandRow;
  }

  lemma EmptyRejected(w: nat)
    requires w > 0
    ensures ExpandRow([], w, 0) == None
  {
  }

  /** What the compressor reports as success is the code of the first rows. */
  lemma {:induction false} CompressIsPrefix(rows: seq<Row>, w: nat, capacity: nat) returns (k: nat)
    requires Uniform(rows, w) && rows != [] && CompressPlane(rows, capacity).Some?
    ensures k <= |rows| && CompressPlane(rows, capacity).value == EncodePlane(rows[..k])
    decreases |rows|
  {
    hide EncodeRow;
    if capacity == 0 {
      k := 0;
    } else if |rows| == 1 {
      k := 1;
      assert rows[..1] == rows && rows[1..] == [];
    } else {
      var j := CompressIsPrefix(rows[1..], w, capacity - |EncodeRow(rows[0])|);
      k := j + 1;
      assert rows[..k][1..] == rows[1..][..j];
    }
  }

  /** The skip parser accepts what the compressor wrote exactly when that is the whole plane. */
  lemma AcceptedIffFits(rows: seq<Row>, w: nat, capacity: nat)
    requires Uniform(rows, w) && w > 0 && rows != [] && CompressPlane(rows, capacity).Some?
    ensures ExpandPlane(CompressPlane(rows, capacity).value, w, |rows|).Some? <==> |EncodePlane(rows)| <= capacity
    ensures |EncodePlane(rows)| <= capacity ==>
              ExpandPlane(CompressPlane(rows, capacity).value, w, |rows|) == Some((rows, []))
  {
    hide CompressPlane, ExpandPlane, EncodePlane;
    CompressOutcome(rows, w, capacity);
    if |EncodePlane(rows)| <= capacity {
      PlaneReadsBack(rows, w, []);
      assert EncodePlane(rows) + [] == EncodePlane(rows);
    } else {
      var k := CompressIsPrefix(rows, w, capacity);
      assert rows[..|rows|] == rows;
      PrefixRejected(rows[..k], w, |rows|);
    }
  }

  /** Where pixel x of row y stands in a plane of rows of w bytes. */
  function FlatAt(w: nat, x: nat, y: nat): int {
    y * w + x
  }

  /** A finished plane, pixel by pixel: row y of the image holds row y of the plane, or the row as far from
      its end when vFlip says so. */
  lemma PixelArrives(plane: seq<byte>, image: seq<byte>, was: seq<byte>, l: Layout, x: nat, k: nat)
    requires |plane| >= l.height * l.width && x < l.width && k < l.height
    requires PlaneDone(image, was, l, RowsOf(plane, l.width, l.height), l.height)
    ensures 0 <= l.RowOf(k) < l.height && 0 <= l.At(x, l.RowOf(k)) < |image| && 0 <= FlatAt(l.width, x, k) < |plane|
    ensures image[l.At(x, l.RowOf(k))] == plane[FlatAt(l.width, x, k)]
  {
    hide RowsOf, PlaneDone, Layout.Base, Layout.At, Layout.RowOf, FlatAt;
    RowInside(l, k);
    var rows := RowsOf(plane, l.width, l.height);
    ScanlinePixel(image, was, l, rows, k, x);
    var p := rows[k][x];
    assert image[l.At(x, l.RowOf(k))] == p;
    PlanePixel(plane, l.width, l.height, k, x);
    assert plane[FlatAt(l.width, x, k)] == p;
  }

  lemma RowInside(l: Layout, k: nat)
    requires k < l.height
    ensures 0 <= l.RowOf(k) < l.height
  {
  }

  lemma BaseIsAt(l: Layout, k: nat, x: nat)
    requires k < l.height
    ensures l.At(x, l.RowOf(k)) == l.Base(k) + 4 * x
  {
  }

  lemma ScanlinePixel(image: seq<byte>, was: seq<byte>, l: Layout, rows: seq<Row>, k: nat, x: nat)
    requires PlaneDone(image, was, l, rows, l.height) && k < l.height && x < l.width && 0 <= l.RowOf(k)
    ensures 0 <= l.At(x, l.RowOf(k)) < |image| && image[l.At(x, l.RowOf(k))] == rows[k][x]
  {
    hide Layout.Base, Layout.RowOf, Layout.At;
    BaseIsAt(l, k, x);
    assert ScanlineIs(image, l.Base(k), rows[k]);
    assert image[l.Base(k) + 4 * x] == rows[k][x];
  }

  lemma PlanePixel(plane: seq<byte>, w: nat, h: nat, y: nat, x: nat)
    requires |plane| >= h * w && y < h && x < w
    ensures 0 <= FlatAt(w, x, y) < |plane| && RowsOf(plane, w, h)[y][x] == plane[FlatAt(w, x, y)]
  {
    hide RowsOf;
    RowsOfAt(plane, w, h, y);
    RowPixel(plane, y * w, w, x);
  }

  lemma RowPixel(plane: seq<byte>, at: nat, w: nat, x: nat)
    requires at + w <= |plane| && x < w
    ensures plane[at..at + w][x] == plane[at + x]
  {
  }

  /** A plane of an image is compressed, checked and decompressed. It arrives exactly when its code fits the
      buffer, and then every pixel of its channel is the pixel of the plane, in either row order; a plane that
      does not fit is refused, by the compressor or, after its silent stop, by the skip parser. */
  method ThroughTheCodec(plane: seq<byte>, l: Layout, delta: array<byte>, coded: array<byte>, image: array<byte>)
      returns (ok: bool)
    requires l.width > 0 && l.height > 0 && |plane| >= l.height * l.width && delta.Length >= l.height * l.width
    requires delta != coded && delta != image && coded != image && l.Inside(image.Length)
    modifies delta, coded, image
    ensures ok <==> |EncodePlane(Delta(RowsOf(plane, l.width, l.height), l.width))| <= coded.Length
    ensures ok ==> PlaneDone(image[..], old(image[..]), l, RowsOf(plane, l.width, l.height), l.height)
    ensures !ok ==> image[..] == old(image[..])
  {
    hide CompressPlane, ExpandPlane, EncodePlane, Delta, Undelta, PlaneDone, RowsOf;
    ghost var rows := RowsOf(plane, l.width, l.height);
    ghost var symbols := Delta(rows, l.width);
    DeltaEncodePlane(plane, l.width, l.height, delta);
    CompressOutcome(symbols, l.width, coded.Length);
    var size;
    ok, size := CompressPlaneRle(delta[..], l.width, l.height, coded, coded.Length);
    if !ok {
      return;
    }
    AcceptedIffFits(symbols, l.width, coded.Length);
    var n := SkipPlaneRle(coded[..size], l.width, l.height);
    if n < 0 {
      return false;
    }
    assert coded[..size][..n] == coded[..size];
    var consumed := DecompressPlaneRle(coded[..n], image, l);
    UndeltaDelta(rows, l.width);
  }
}
