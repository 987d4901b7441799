/** Whole planes: the zigzag delta between scanlines, the code of all scanlines, and the output
    buffer of freerdp_bitmap_planar_compress_plane_rle (libfreerdp/codec/planar.c). */
module PlanarPlane {
  import opened Basics
  import opened Bits
  import opened PlanarRle

  type Row = seq<byte>

  ghost predicate Uniform(rows: seq<Row>, w: nat) {
    forall y :: 0 <= y < |rows| ==> |rows[y]| == w
  }

  // ----- delta between scanlines

  /** freerdp_bitmap_planar_delta_encode_plane, with `char` an 8-bit two's complement number. */
  function ZigZag(delta: int): byte {
    var s2c := (delta + 128) % 256 - 128;
    if s2c >= 0 then 2 * s2c else (-(s2c + 256) * 2 - 1) % 256
  }

  /** The signed value planar_decompress_plane_rle reads from a delta byte. */
  function UnZigZag(v: byte): int {
    if v % 2 == 1 then -(v / 2 + 1) else v / 2
  }

  lemma ZigZagRoundTrip(delta: int)
    ensures (UnZigZag(ZigZag(delta)) - delta) % 256 == 0
  {
    var s2c := (delta + 128) % 256 - 128;
    assert UnZigZag(ZigZag(delta)) == s2c;
  }

  lemma {:induction false} AddBack(prev: byte, cur: byte)
    ensures (prev + UnZigZag(ZigZag(cur as int - prev as int))) % 256 == cur
  {
    hide UnZigZag, ZigZag;
    ZigZagRoundTrip(cur as int - prev as int);
    SameResidue(prev + UnZigZag(ZigZag(cur as int - prev as int)), cur);
  }

  lemma SameResidue(a: int, b: byte)
    requires (a - b) % 256 == 0
    ensures a % 256 == b
  {
  }

  function DeltaRow(prev: Row, cur: Row): (r: Row)
    requires |prev| == |cur|
    ensures |r| == |cur|
    ensures forall x :: 0 <= x < |cur| ==> r[x] == ZigZag(cur[x] as int - prev[x] as int)
  {
    seq(|cur|, x requires 0 <= x < |cur| => ZigZag(cur[x] as int - prev[x] as int))
  }

  function UndeltaRow(prev: Row, symbols: Row): (r: Row)
    requires |prev| == |symbols|
    ensures |r| == |symbols|
    ensures forall x :: 0 <= x < |symbols| ==> r[x] == (prev[x] + UnZigZag(symbols[x])) % 256
  {
    seq(|symbols|, x requires 0 <= x < |symbols| => (prev[x] + UnZigZag(symbols[x])) % 256)
  }

  /** freerdp_bitmap_planar_delta_encode_plane. */
  function Delta(rows: seq<Row>, w: nat): (r: seq<Row>)
    requires Uniform(rows, w)
    ensures |r| == |rows| && Uniform(r, w)
    ensures |rows| > 0 ==> r[0] == rows[0]
    ensures forall y {:trigger r[y]} :: 0 < y < |rows| ==> r[y] == DeltaRow(rows[y - 1], rows[y])
  {
    seq(|rows|, y requires 0 <= y < |rows| => if y == 0 then rows[0] else DeltaRow(rows[y - 1], rows[y]))
  }

  /** The scanlines planar_decompress_plane_rle reconstructs: the first absolute, every other one
      relative to the one decoded before it. */
  function Undelta(symbols: seq<Row>, w: nat): (r: seq<Row>)
    requires Uniform(symbols, w)
    ensures |r| == |symbols| && Uniform(r, w)
    ensures |r| > 0 ==> r[0] == symbols[0]
    ensures forall y {:trigger r[y]} :: 0 < y < |r| ==> r[y] == UndeltaRow(r[y - 1], symbols[y])
  {
    if symbols == [] then [] else
      var n := |symbols|;
      var init := Undelta(symbols[..n - 1], w);
      init + [if n == 1 then symbols[0] else UndeltaRow(init[n - 2], symbols[n - 1])]
  }

  lemma UndeltaDeltaRow(prev: Row, cur: Row)
    requires |prev| == |cur|
    ensures UndeltaRow(prev, DeltaRow(prev, cur)) == cur
  {
    hide UnZigZag, ZigZag;
    forall x | 0 <= x < |cur|
      ensures (prev[x] + UnZigZag(ZigZag(cur[x] as int - prev[x] as int))) % 256 == cur[x]
    {
      AddBack(prev[x], cur[x]);
    }
  }

  lemma {:induction false} UndeltaAt(rows: seq<Row>, w: nat, y: nat)
    requires Uniform(rows, w) && y < |rows|
    ensures Undelta(Delta(rows, w), w)[y] == rows[y]
    decreases y
  {
    hide Undelta, Delta, UndeltaRow, DeltaRow;
    var symbols := Delta(rows, w);
    var r := Undelta(symbols, w);
    if y == 0 {
      assert r[y] == symbols[0] && symbols[y] == rows[0];
    } else {
      UndeltaAt(rows, w, y - 1);
      UndeltaDeltaRow(rows[y - 1], rows[y]);
      assert r[y] == UndeltaRow(r[y - 1], symbols[y]);
    }
  }

  /** The decoder's reconstruction undoes the delta for every plane. */
  lemma UndeltaDelta(rows: seq<Row>, w: nat)
    requires Uniform(rows, w)
    ensures Undelta(Delta(rows, w), w) == rows
  {
    hide Undelta, Delta, UndeltaRow, DeltaRow;
    forall y | 0 <= y < |rows|
      ensures Undelta(Delta(rows, w), w)[y] == rows[y]
    {
      UndeltaAt(rows, w, y);
    }
  }

  // ----- the code of a plane

  function EncodePlane(rows: seq<Row>): seq<byte> {
    if rows == [] then [] else EncodeRow(rows[0]) + EncodePlane(rows[1..])
  }

  /** What planar_skip_plane_rle accepts: h scanlines of w symbols each. */
  function ExpandPlane(b: seq<byte>, w: nat, h: nat): (r: Option<(seq<Row>, seq<byte>)>)
    ensures r.Some? ==> |r.value.0| == h && Uniform(r.value.0, w)
    ensures r.Some? ==> |r.value.1| <= |b|
    decreases h
  {
    if h == 0 then Some(([], b)) else
      match ExpandRow(b, w, 0)
      case None => None
      case Some((row, rest)) =>
        match ExpandPlane(rest, w, h - 1)
        case None => None
        case Some((rows, rest')) => Some(([row] + rows, rest'))
  }

  /** So does a plane. */
  lemma {:induction false} PlanePrefix(b: seq<byte>, w: nat, h: nat, t: seq<byte>)
    requires ExpandPlane(b, w, h).Some?
    ensures var (rows, rest) := ExpandPlane(b, w, h).value;
            rest == b[|b| - |rest|..] && ExpandPlane(b[..|b| - |rest|] + t, w, h) == Some((rows, t))
    decreases h
  {
    hide ExpandRow, ExpandPlane;
    if h == 0 {
      NoPlane(b, w);
      NoPlane(b[..0] + t, w);
      assert b[..0] + t == t;
    } else {
      PlaneParts(b, w, h);
      var (row, later) := ExpandRow(b, w, 0).value;
      var (rows, rest) := ExpandPlane(later, w, h - 1).value;
      var more := later[..|later| - |rest|] + t;
      PlanePrefix(later, w, h - 1, t);
      RowPrefix(b, w, 0, more);
      Regroup(b, later, rest, t);
      PlaneFrom(b[..|b| - |later|] + more, w, h, row, more, rows, t);
    }
  }

  lemma NoPlane(b: seq<byte>, w: nat)
    ensures ExpandPlane(b, w, 0) == Some(([], b))
  {
  }

  /** The first row of a plane, and the rows behind it. */
  lemma PlaneParts(b: seq<byte>, w: nat, h: nat)
    requires h > 0 && ExpandPlane(b, w, h).Some?
    ensures ExpandRow(b, w, 0).Some? && var (row, later) := ExpandRow(b, w, 0).value;
            && ExpandPlane(later, w, h - 1).Some?
            && var (rows, rest) := ExpandPlane(later, w, h - 1).value;
               ExpandPlane(b, w, h) == Some(([row] + rows, rest))
  {
    hide ExpandRow;
  }

  lemma PlaneFrom(b: seq<byte>, w: nat, h: nat, row: Row, later: seq<byte>, rows: seq<Row>, rest: seq<byte>)
    requires h > 0 && ExpandRow(b, w, 0) == Some((row, later)) && ExpandPlane(later, w, h - 1) == Some((rows, rest))
    ensures ExpandPlane(b, w, h) == Some(([row] + rows, rest))
  {
    hide ExpandRow;
  }

  lemma Regroup(b: seq<byte>, later: seq<byte>, rest: seq<byte>, t: seq<byte>)
    requires |rest| <= |later| <= |b| && later == b[|b| - |later|..] && rest == later[|later| - |rest|..]
    ensures rest == b[|b| - |rest|..]
    ensures b[..|b| - |later|] + (later[..|later| - |rest|] + t) == b[..|b| - |rest|] + t
  {
  }

  lemma {:induction false} PlaneReadsBack(rows: seq<Row>, w: nat, rest: seq<byte>)
    requires Uniform(rows, w)
    ensures ExpandPlane(EncodePlane(rows) + rest, w, |rows|) == Some((rows, rest))
    decreases |rows|
  {
    hide ExpandRow, EncodeRow;
    if rows == [] {
      assert EncodePlane(rows) + rest == rest;
    } else {
      var tail := EncodePlane(rows[1..]) + rest;
      assert EncodePlane(rows) + rest == EncodeRow(rows[0]) + tail;
      RowRoundTrip(rows[0], tail);
      PlaneReadsBack(rows[1..], w, rest);
      assert [rows[0]] + rows[1..] == rows;
    }
  }

  /** Delta, run-length code, parsing and reconstruction give back every plane. */
  lemma PlaneRoundTrip(rows: seq<Row>, w: nat, rest: seq<byte>)
    requires Uniform(rows, w)
    ensures var r := ExpandPlane(EncodePlane(Delta(rows, w)) + rest, w, |rows|);
            r.Some? && r.value.1 == rest && Undelta(r.value.0, w) == rows
  {
    hide ExpandPlane, EncodePlane;
    PlaneReadsBack(Delta(rows, w), w, rest);
    UndeltaDelta(rows, w);
  }

  // ----- the output buffer

  /** freerdp_bitmap_planar_compress_plane_rle into `capacity` bytes. The loop ends without an error
      when the buffer is exactly full. */
  function CompressPlane(rows: seq<Row>, capacity: nat): Option<seq<byte>>
    requires rows != []
    decreases |rows|
  {
    if capacity == 0 then Some([])
    else
      var b := EncodeRow(rows[0]);
      if b == [] || |b| > capacity then None
      else if |rows| == 1 then Some(b)
      else
        match CompressPlane(rows[1..], capacity - |b|)
        case None => None
        case Some(more) => Some(b + more)
  }

  /** The buffer is full before the last scanlines are written. */
  ghost predicate FullTooSoon(rows: seq<Row>, capacity: nat) {
    exists k :: 0 <= k < |rows| && |EncodePlane(rows[..k])| == capacity
  }

  lemma {:induction false} EncodePlaneSplit(rows: seq<Row>, k: nat)
    requires k <= |rows|
    ensures EncodePlane(rows) == EncodePlane(rows[..k]) + EncodePlane(rows[k..])
    decreases k
  {
    hide EncodeRow;
    if k > 0 {
      EncodePlaneSplit(rows[1..], k - 1);
      assert rows[..k][1..] == rows[1..][..k - 1] && rows[k..] == rows[1..][k - 1..];
      assert EncodePlane(rows[..k]) == EncodeRow(rows[0]) + EncodePlane(rows[..k][1..]);
    } else {
      assert EncodePlane(rows[..0]) == [];
    }
  }

  lemma {:induction false} EncodePlaneNotEmpty(rows: seq<Row>, w: nat)
    requires Uniform(rows, w) && w > 0 && rows != []
    ensures EncodePlane(rows) != []
  {
    RowNotEmpty(rows[0]);
  }

  lemma FullShift(rows: seq<Row>, w: nat, capacity: nat)
    requires Uniform(rows, w) && w > 0 && rows != [] && capacity > 0
    ensures var n := |EncodeRow(rows[0])|;
            FullTooSoon(rows, capacity) <==> n <= capacity && |rows| > 1 && FullTooSoon(rows[1..], capacity - n)
  {
    hide EncodeRow;
    var n, tail := |EncodeRow(rows[0])|, rows[1..];
    if FullTooSoon(rows, capacity) {
      var k :| 0 <= k < |rows| && |EncodePlane(rows[..k])| == capacity;
      assert k > 0;
      assert rows[..k][1..] == tail[..k - 1];
      assert |EncodePlane(tail[..k - 1])| == capacity - n;
    }
    if n <= capacity && |rows| > 1 && FullTooSoon(tail, capacity - n) {
      var k :| 0 <= k < |tail| && |EncodePlane(tail[..k])| == capacity - n;
      assert rows[..k + 1][1..] == tail[..k];
      assert |EncodePlane(rows[..k + 1])| == capacity;
    }
  }

  /** A non-NULL result is the whole plane exactly when the buffer does not run full on a scanline
      boundary before the last scanline. */
  lemma {:induction false} CompressCompleteIff(rows: seq<Row>, w: nat, capacity: nat)
    requires Uniform(rows, w) && w > 0 && rows != [] && CompressPlane(rows, capacity).Some?
    ensures CompressPlane(rows, capacity).value == EncodePlane(rows) <==> !FullTooSoon(rows, capacity)
    decreases |rows|
  {
    hide EncodeRow;
    EncodePlaneNotEmpty(rows, w);
    if capacity == 0 {
      assert EncodePlane(rows[..0]) == [];
      assert FullTooSoon(rows, capacity);
    } else {
      FullShift(rows, w, capacity);
      var b, tail := EncodeRow(rows[0]), rows[1..];
      if |rows| == 1 {
        assert EncodePlane(tail) == [];
      } else {
        CompressCompleteIff(tail, w, capacity - |b|);
        SameTail(b, CompressPlane(tail, capacity - |b|).value, EncodePlane(tail));
      }
    }
  }

  lemma SameTail(b: seq<byte>, c: seq<byte>, d: seq<byte>)
    ensures b + c == b + d <==> c == d
  {
    if b + c == b + d {
      assert (b + c)[|b|..] == c && (b + d)[|b|..] == d;
    }
  }

  /** What the compressor does: the whole plane when it fits; otherwise it fails, or stops without
      an error when some of the scanlines fill the buffer exactly. */
  lemma {:induction false} CompressOutcome(rows: seq<Row>, w: nat, capacity: nat)
    requires Uniform(rows, w) && w > 0 && rows != []
    ensures CompressPlane(rows, capacity) == Some(EncodePlane(rows)) <==> |EncodePlane(rows)| <= capacity
    ensures |EncodePlane(rows)| > capacity ==> (CompressPlane(rows, capacity).Some? <==> FullTooSoon(rows, capacity))
    decreases |rows|
  {
    hide EncodeRow;
    EncodePlaneNotEmpty(rows, w);
    if capacity == 0 {
      assert EncodePlane(rows[..0]) == [];
      assert FullTooSoon(rows, capacity);
    } else {
      FullShift(rows, w, capacity);
      var b, tail := EncodeRow(rows[0]), rows[1..];
      RowNotEmpty(rows[0]);
      if |rows| == 1 {
        assert EncodePlane(rows) == b + EncodePlane(tail) == b;
      } else if |b| <= capacity {
        CompressOutcome(tail, w, capacity - |b|);
        var rest := CompressPlane(tail, capacity - |b|);
        assert EncodePlane(rows) == b + EncodePlane(tail);
        if rest.Some? {
          SameTail(b, rest.value, EncodePlane(tail));
          assert CompressPlane(rows, capacity) == Some(b + rest.value);
        } else {
          assert CompressPlane(rows, capacity) == None;
        }
      }
    }
  }

  /** A buffer with room for every scanline at its worst always works. */
  lemma {:induction false} CompressFits(rows: seq<Row>, w: nat, capacity: nat)
    requires Uniform(rows, w) && w > 0 && rows != [] && capacity >= |rows| * (w + (w + 14) / 15)
    ensures CompressPlane(rows, capacity) == Some(EncodePlane(rows))
    decreases |rows|
  {
    hide EncodeRow;
    var worst := w + (w + 14) / 15;
    RowCost(rows[0]);
    RowNotEmpty(rows[0]);
    RowsStep(|rows|, worst);
    if |rows| == 1 {
      assert EncodePlane(rows) == EncodeRow(rows[0]) + EncodePlane(rows[1..]) == EncodeRow(rows[0]);
    } else {
      CompressFits(rows[1..], w, capacity - |EncodeRow(rows[0])|);
    }
  }

  /** The silent stop does happen: two one-pixel scanlines into two bytes lose the second one. */
  lemma CompressCanTruncate() returns (rows: seq<Row>)
    ensures Uniform(rows, 1) && |rows| == 2
    ensures CompressPlane(rows, 2) == Some(EncodeRow(rows[0])) && CompressPlane(rows, 2).value != EncodePlane(rows)
  {
    hide EncodeRow;
    rows := [[5], [5]];
    OnePixel(5);
    var tail := rows[1..];
    assert tail == [[5]] && EncodePlane(tail) == EncodeRow([5]) + EncodePlane(tail[1..]);
    assert CompressPlane(tail, 0) == Some([]);
    assert EncodeRow([5]) + [] == EncodeRow([5]);
    assert |EncodePlane(rows)| == 4;
  }

  lemma OnePixel(p: byte)
    requires p != 0
    ensures EncodeRow([p]) == [Control(0, 1), p]
  {
    var row := [p];
    assert EncodeFrom(row, 1, p, 1, 0) == WriteSegment(row[0..1], 1, 0);
    assert row[0..1] == row;
    assert WriteRaws(row, 1, 0) == [Control(0, 1)] + row[..1];
    assert row[..1] == row;
  }

  // ----- planes as flat buffers

  lemma RowsStep(h: nat, w: nat)
    requires h >= 1
    ensures h * w == w + (h - 1) * w && (h - 1) * w >= 0
  {
  }

  /** The h scanlines of a buffer that holds them one after the other. */
  function RowsOf(plane: seq<byte>, w: nat, h: nat): (rows: seq<Row>)
    requires |plane| >= h * w
    ensures |rows| == h && Uniform(rows, w)
    decreases h
  {
    if h == 0 then [] else
      RowsStep(h, w);
      [plane[..w]] + RowsOf(plane[w..], w, h - 1)
  }

  lemma {:induction false} RowsOfAt(plane: seq<byte>, w: nat, h: nat, y: nat)
    requires |plane| >= h * w && y < h
    ensures y * w >= 0 && y * w + w <= h * w
    ensures RowsOf(plane, w, h)[y] == plane[y * w..y * w + w]
    decreases y
  {
    RowsStep(h, w);
    if y > 0 {
      RowsStep(y, w);
      RowsOfAt(plane[w..], w, h - 1, y - 1);
      RowBehind(plane, w, (y - 1) * w);
    }
  }

  lemma RowBehind(plane: seq<byte>, w: nat, k: nat)
    requires w + k + w <= |plane|
    ensures plane[w..][k..k + w] == plane[w + k..w + k + w]
  {
    var tail, row := plane[w..], plane[w + k..w + k + w];
    assert forall i :: 0 <= i < w ==> tail[k..k + w][i] == row[i];
  }
}
