/** The planar encoder and decoder loops, which write byte buffers in place
    (libfreerdp/codec/planar.c). */
module Planar {
  import opened Basics
  import opened Bits
  import opened PlanarRle
  import opened PlanarPlane

  // ----- encoding a scanline

  /** The run loop of freerdp_bitmap_planar_write_rle_bytes; the buffer ends at `limit`. */
  method WriteRunLoop(nRunLength: nat, out: array<byte>, at: nat, limit: nat) returns (ok: bool, o: nat)
    requires at <= limit <= out.Length
    modifies out
    ensures ok <==> at + |WriteRuns(nRunLength)| <= limit
    ensures ok ==> o == at + |WriteRuns(nRunLength)| && out[..o] == old(out[..at]) + WriteRuns(nRunLength)
    ensures out[limit..] == old(out[limit..]) && out[..at] == old(out[..at])
  {
    var run := nRunLength;
    o := at;
    while run != 0
      invariant at <= o <= limit
      invariant out[..o] + WriteRuns(run) == old(out[..at]) + WriteRuns(nRunLength)
      invariant out[limit..] == old(out[limit..]) && out[..at] == old(out[..at])
      decreases run
    {
      var controlByte;
      ghost var written, before := out[..o], run;
      if run > 47 {
        if run < 50 {
          controlByte := Control(2, 13);
          run := run - 45;
        } else {
          controlByte := Control(2, 15);
          run := run - 47;
        }
      } else if run > 31 {
        controlByte := Control(2, run - 32);
        run := 0;
      } else if run > 15 {
        controlByte := Control(1, run - 16);
        run := 0;
      } else {
        controlByte := Control(run, 0);
        run := 0;
      }
      assert WriteRuns(before) == [controlByte] + WriteRuns(run);
      assert written + WriteRuns(before) == written + [controlByte] + WriteRuns(run);
      if limit - o < 1 {
        return false, o;
      }
      out[o] := controlByte;
      o := o + 1;
      assert out[..o] == written + [controlByte];
    }
    ok := true;
  }

  /** One control byte and its raw bytes: what one turn of the raw loop writes. */
  method WriteRawChunk(input: seq<byte>, ip: nat, controlByte: byte, count: nat, out: array<byte>, o: nat,
      limit: nat) returns (ok: bool)
    requires ip + count <= |input| && o <= limit <= out.Length && controlByte / 16 == count
    modifies out
    ensures ok <==> o + 1 + count <= limit
    ensures ok ==> out[..o + 1 + count] == old(out[..o]) + ([controlByte] + input[ip..ip + count])
    ensures out[limit..] == old(out[limit..]) && out[..o] == old(out[..o])
  {
    if limit - o < 1 {
      return false;
    }
    out[o] := controlByte;
    var nBytesToWrite := controlByte / 16;
    if limit - (o + 1) < nBytesToWrite {
      return false;
    }
    forall k | 0 <= k < nBytesToWrite { out[o + 1 + k] := input[ip + k]; }
    ok := true;
    ghost var b := [controlByte] + input[ip..ip + count];
    forall k | 0 <= k < 1 + count
      ensures out[o + k] == b[k]
    {
      if k > 0 { assert out[o + 1 + (k - 1)] == input[ip + (k - 1)]; }
    }
    assert out[o..o + 1 + count] == b;
    assert out[..o + 1 + count] == out[..o] + out[o..o + 1 + count];
  }

  /** The control byte the raw loop chooses, with the raw and run counts that stay to be written. */
  function RawControl(raw: nat, run: nat): (byte, nat, nat)
    requires raw > 0
  {
    if raw < 16 then
      if run > 15 then
        if run < 18 then (Control(13, raw), 0, run - 13) else (Control(15, raw), 0, run - 15)
      else (Control(run, raw), 0, 0)
    else (Control(0, 15), raw - 15, run)
  }

  lemma RawControlCount(raw: nat, run: nat)
    requires raw > 0 && (run == 0 || run >= 3)
    ensures var (c, raw', run') := RawControl(raw, run);
            raw' < raw && c / 16 == raw - raw' && (run' == 0 || run' >= 3)
  {
  }

  lemma {:induction false} RawStep(data: seq<byte>, raw: nat, run: nat)
    requires 0 < raw <= |data| && RawControl(raw, run).1 < raw
    ensures var (c, raw', run') := RawControl(raw, run);
            WriteRaws(data, raw, run) == [c] + data[..raw - raw'] + WriteRaws(data[raw - raw'..], raw', run')
  {
    hide Control, WriteRaws, WriteRuns;
    var (c, raw', run') := RawControl(raw, run);
    if raw < 16 {
      LastRaws(data, raw, run);
      NoRaws(data[raw..], run');
    } else {
      FirstRaws(data, raw, run);
    }
  }

  lemma {:induction false} FirstRaws(data: seq<byte>, raw: nat, run: nat)
    requires 16 <= raw <= |data|
    ensures WriteRaws(data, raw, run) == [Control(0, 15)] + data[..15] + WriteRaws(data[15..], raw - 15, run)
  {
  }

  lemma {:induction false} LastRaws(data: seq<byte>, raw: nat, run: nat)
    requires 0 < raw < 16 && raw <= |data|
    ensures var (c, _, run') := RawControl(raw, run);
            WriteRaws(data, raw, run) == [c] + data[..raw] + WriteRuns(run')
  {
    hide Control;
    assert WriteRuns(0) == [];
  }

  lemma RawTurn(b: seq<byte>, d: seq<byte>, run: nat, piece: seq<byte>)
    requires d != [] && (run == 0 || run >= 3)
    requires var (c, raw', run') := RawControl(|d|, run); raw' < |d| && piece == [c] + d[..|d| - raw']
    ensures var (c, raw', run') := RawControl(|d|, run);
            b + WriteRaws(d, |d|, run) == b + piece + WriteRaws(d[|d| - raw'..], raw', run')
  {
    hide Control, WriteRaws, RawControl;
    RawStep(d, |d|, run);
  }

  /** The raw loop of freerdp_bitmap_planar_write_rle_bytes. */
  method WriteRawLoop(input: seq<byte>, inPos: nat, cRawBytes: nat, nRunLength: nat, out: array<byte>, at: nat,
                      limit: nat)
      returns (ok: bool, o: nat, run: nat, ghost b: seq<byte>)
    requires inPos + cRawBytes <= |input| && at <= limit <= out.Length && (nRunLength == 0 || nRunLength >= 3)
    modifies out
    ensures run == 0 || run >= 3
    ensures ok ==> b + WriteRuns(run) == WriteRaws(input[inPos..inPos + cRawBytes], cRawBytes, nRunLength)
    ensures ok ==> o == at + |b| <= limit && out[..o] == old(out[..at]) + b
    ensures !ok ==> at + |WriteRaws(input[inPos..inPos + cRawBytes], cRawBytes, nRunLength)| > limit
    ensures out[limit..] == old(out[limit..]) && out[..at] == old(out[..at])
  {
    hide WriteRuns, Control, RawControl, WriteRaws;
    ghost var pre, end := out[..at], inPos + cRawBytes;
    ghost var whole := WriteRaws(input[inPos..end], cRawBytes, nRunLength);
    var raw: nat, ip: nat := cRawBytes, inPos;
    o, run, b := at, nRunLength, [];
    while raw != 0
      invariant ip + raw == end && (run == 0 || run >= 3)
      invariant o == at + |b| <= limit && out[..o] == pre + b
      invariant b + WriteRaws(input[ip..end], raw, run) == whole
      invariant out[limit..] == old(out[limit..]) && out[..at] == old(out[..at])
    {
      RawControlCount(raw, run);
      var (controlByte, raw', run') := RawControl(raw, run);
      var count := raw - raw';
      ghost var piece := [controlByte] + input[ip..ip + count];
      SliceSlice(input, ip, end, count);
      RawTurn(b, input[ip..end], run, piece);
      ok := WriteRawChunk(input, ip, controlByte, count, out, o, limit);
      if !ok {
        return;
      }
      b := b + piece;
      o, ip, raw, run := o + 1 + count, ip + count, raw', run';
    }
    NoRaws(input[ip..end], run);
    ok := true;
  }

  lemma NoRaws(data: seq<byte>, run: nat)
    ensures WriteRaws(data, 0, run) == WriteRuns(run)
  {
  }

  lemma SliceSlice(s: seq<byte>, i: nat, j: nat, n: nat)
    requires i + n <= j <= |s|
    ensures s[i..j][..n] == s[i..i + n] && s[i..j][n..] == s[i + n..j]
  {
  }

  /** freerdp_bitmap_planar_write_rle_bytes: writes raw bytes and a run to out[at..limit), or gives 0
      when they do not fit. */
  method WriteRleBytes(input: seq<byte>, inPos: nat, cRawBytes: nat, nRunLength: nat, out: array<byte>, at: nat,
                       limit: nat)
      returns (n: nat)
    requires inPos + cRawBytes + nRunLength <= |input| && at <= limit <= out.Length
    modifies out
    ensures var b := WriteSegment(input[inPos..inPos + cRawBytes + nRunLength], cRawBytes, nRunLength);
            && n == (if at + |b| <= limit then |b| else 0)
            && (at + |b| <= limit ==> out[..at + n] == old(out[..at]) + b)
    ensures out[limit..] == old(out[limit..]) && out[..at] == old(out[..at])
  {
    hide WriteRuns, WriteRaws;
    ghost var data := input[inPos..inPos + cRawBytes + nRunLength];
    if cRawBytes == 0 && nRunLength == 0 {
      NothingToWrite(data);
      return 0;
    }
    var raw, run := cRawBytes, nRunLength;
    if nRunLength < 3 {
      raw, run := cRawBytes + nRunLength, 0;
    }
    WriteRawsPrefix(data, input[inPos..inPos + raw], run);
    var ok, o;
    ghost var b;
    ok, o, run, b := WriteRawLoop(input, inPos, raw, run, out, at, limit);
    if !ok {
      return 0;
    }
    ok, o := WriteRunLoop(run, out, o, limit);
    if !ok {
      return 0;
    }
    n := o - at;
  }

  lemma NothingToWrite(data: seq<byte>)
    ensures WriteSegment(data, 0, 0) == []
  {
  }

  lemma {:induction false} SegmentNotEmpty(data: seq<byte>, raw: nat, run: nat)
    requires raw + run <= |data| && raw + run > 0
    ensures WriteSegment(data, raw, run) != []
  {
  }

  lemma {:induction false} PendingNotEmpty(row: seq<byte>, i: nat, symbol: byte, raw: nat, run: nat)
    requires raw + run <= i <= |row| && raw + run > 0
    ensures EncodeFrom(row, i, symbol, raw, run) != []
    decreases |row| - i
  {
    hide WriteSegment;
    var start := i - raw - run;
    SegmentNotEmpty(row[start..i], raw, run);
    if i < |row| {
      if row[i] == symbol { PendingNotEmpty(row, i + 1, row[i], raw, run + 1); }
      else if run == 0 { PendingNotEmpty(row, i + 1, row[i], raw + 1, 0); }
      else if run < 3 { PendingNotEmpty(row, i + 1, row[i], raw + run + 1, 0); }
    }
  }

  /** What the encoder still has to write after `done`. */
  ghost predicate Remaining(row: seq<byte>, done: seq<byte>, i: int, symbol: byte, raw: int, run: int) {
    && 0 <= raw && 0 <= run && raw + run <= i <= |row|
    && done + EncodeFrom(row, i, symbol, raw, run) == EncodeRow(row)
  }

  lemma StartRemaining(row: seq<byte>)
    ensures Remaining(row, [], 0, 0, 0, 0)
  {
    assert [] + EncodeRow(row) == EncodeRow(row);
  }

  /** One turn of the encoder loop that writes nothing. */
  lemma QuietTurn(row: seq<byte>, done: seq<byte>, i: nat, symbol: byte, raw: nat, run: nat)
    requires Remaining(row, done, i, symbol, raw, run) && i < |row| && (row[i] == symbol || run < 3)
    ensures if row[i] == symbol then Remaining(row, done, i + 1, row[i], raw, run + 1)
            else Remaining(row, done, i + 1, row[i], raw + run + 1, 0)
  {
    hide WriteSegment, EncodeRow;
  }

  /** One turn of the encoder loop that writes the pending segment. */
  lemma WritingTurn(row: seq<byte>, done: seq<byte>, i: nat, symbol: byte, raw: nat, run: nat)
    requires Remaining(row, done, i, symbol, raw, run) && i < |row| && row[i] != symbol && run >= 3
    ensures var b := WriteSegment(row[i - raw - run..i], raw, run);
            b != [] && Remaining(row, done + b, i + 1, row[i], 1, 0) && |done + b| <= |EncodeRow(row)|
  {
    hide WriteSegment, EncodeRow;
    var b := WriteSegment(row[i - raw - run..i], raw, run);
    SegmentNotEmpty(row[i - raw - run..i], raw, run);
    assert done + b + EncodeFrom(row, i + 1, row[i], 1, 0) == done + (b + EncodeFrom(row, i + 1, row[i], 1, 0));
  }

  /** At the end of the row the pending segment is all that is left; before it there is more. */
  lemma LastTurn(row: seq<byte>, done: seq<byte>, i: nat, symbol: byte, raw: nat, run: nat)
    requires Remaining(row, done, i, symbol, raw, run)
    ensures raw + run > 0 ==> WriteSegment(row[i - raw - run..i], raw, run) != [] && |done| < |EncodeRow(row)|
    ensures i == |row| ==> EncodeRow(row) == done + WriteSegment(row[i - raw - run..i], raw, run)
  {
    hide WriteSegment, EncodeRow;
    if raw + run > 0 {
      SegmentNotEmpty(row[i - raw - run..i], raw, run);
      PendingNotEmpty(row, i, symbol, raw, run);
    } else {
      NothingToWrite(row[i..i]);
    }
  }

  /** The calls of write_rle_bytes: the pending segment ends in front of symbol i of the row. */
  method WritePending(input: seq<byte>, inPos: nat, width: nat, i: nat, raw: nat, run: nat, out: array<byte>,
                      o: nat, limit: nat, ghost row: seq<byte>)
      returns (written: nat)
    requires inPos + width <= |input| && row == input[inPos..inPos + width] && raw + run <= i <= width
    requires o <= limit <= out.Length
    modifies out
    ensures var b := WriteSegment(row[i - raw - run..i], raw, run);
            && written == (if o + |b| <= limit then |b| else 0)
            && (o + |b| <= limit ==> out[..o + written] == old(out[..o]) + b)
    ensures out[limit..] == old(out[limit..]) && out[..o] == old(out[..o])
  {
    hide WriteSegment;
    SegmentOf(input, inPos, width, i, raw + run);
    written := WriteRleBytes(input, inPos + i - (raw + run), raw, run, out, o, limit);
  }

  /** freerdp_bitmap_planar_encode_rle_bytes on input[inPos..inPos + width), into out[at..limit). */
  method EncodeRleBytes(input: seq<byte>, inPos: nat, width: nat, out: array<byte>, at: nat, limit: nat)
      returns (n: nat)
    requires inPos + width <= |input| && at <= limit <= out.Length
    modifies out
    ensures var b := EncodeRow(input[inPos..inPos + width]);
            && n == (if at + |b| <= limit then |b| else 0)
            && (at + |b| <= limit ==> out[..at + n] == old(out[..at]) + b)
    ensures out[limit..] == old(out[limit..]) && out[..at] == old(out[..at])
  {
    hide EncodeRow, EncodeFrom, WriteSegment, Remaining;
    ghost var row, pre := input[inPos..inPos + width], out[..at];
    ghost var done: seq<byte> := [];
    if limit - at == 0 {
      return 0;
    }
    StartRemaining(row);
    var symbol: byte, raw: nat, run: nat, i: nat, o: nat := 0, 0, 0, 0, at;
    while true
      invariant raw + run <= i <= width && at <= o < limit && o == at + |done| && out[..o] == pre + done
      invariant Remaining(row, done, i, symbol, raw, run)
      invariant out[limit..] == old(out[limit..]) && out[..at] == old(out[..at])
      decreases width - i
    {
      if i == width {
        break;
      }
      var ip := inPos + i;
      var match_ := symbol == input[ip];
      if run > 0 && !match_ {
        if run < 3 {
          QuietTurn(row, done, i, symbol, raw, run);
          raw, run := raw + run, 0;
        } else {
          WritingTurn(row, done, i, symbol, raw, run);
          var written := WritePending(input, inPos, width, i, raw, run, out, o, limit, row);
          if written == 0 {
            return 0;
          }
          done := done + WriteSegment(row[i - raw - run..i], raw, run);
          o, raw, run := o + written, 0, 0;
        }
      } else {
        QuietTurn(row, done, i, symbol, raw, run);
      }
      symbol := input[ip];
      if match_ {
        run := run + 1;
      } else {
        raw := raw + 1;
      }
      i := i + 1;
      if o == limit {
        break;
      }
    }
    LastTurn(row, done, i, symbol, raw, run);
    if raw > 0 || run > 0 {
      var written := WritePending(input, inPos, width, i, raw, run, out, o, limit, row);
      if written == 0 {
        return 0;
      }
      o := o + written;
    } else {
      NothingToWrite(row[i..i]);
    }
    n := o - at;
  }

  lemma SegmentOf(input: seq<byte>, inPos: nat, width: nat, i: nat, count: nat)
    requires inPos + width <= |input| && count <= i <= width
    ensures input[inPos + i - count..inPos + i] == input[inPos..inPos + width][i - count..i]
  {
    var l, r := input[inPos + i - count..inPos + i], input[inPos..inPos + width][i - count..i];
    assert |l| == |r|;
    forall k | 0 <= k < count
      ensures l[k] == r[k]
    {
      assert l[k] == input[inPos + i - count + k] == r[k];
    }
  }

  // ----- planes

  function Follow(front: seq<byte>, r: Option<seq<byte>>): Option<seq<byte>> {
    match r
    case None => None
    case Some(b) => Some(front + b)
  }

  lemma CompressTurn(front: seq<byte>, rows: seq<Row>, capacity: nat)
    requires rows != [] && capacity > 0
    ensures var b := EncodeRow(rows[0]);
            Follow(front, CompressPlane(rows, capacity)) ==
            if b == [] || |b| > capacity then None
            else if |rows| == 1 then Some(front + b)
            else Follow(front + b, CompressPlane(rows[1..], capacity - |b|))
  {
    hide EncodeRow;
    var b := EncodeRow(rows[0]);
    if b != [] && |b| <= capacity && |rows| > 1 && CompressPlane(rows[1..], capacity - |b|).Some? {
      var more := CompressPlane(rows[1..], capacity - |b|).value;
      assert front + (b + more) == front + b + more;
    }
  }

  /** freerdp_bitmap_planar_compress_plane_rle into the first `capacity` bytes of out; ok is false
      where the C function gives NULL. */
  method CompressPlaneRle(plane: seq<byte>, width: nat, height: nat, out: array<byte>, capacity: nat)
      returns (ok: bool, size: nat)
    requires height >= 1 && |plane| >= height * width && capacity <= out.Length
    modifies out
    ensures var r := CompressPlane(RowsOf(plane, width, height), capacity);
            ok == r.Some? && (ok ==> size == |r.value| <= capacity && out[..size] == r.value)
    ensures out[capacity..] == old(out[capacity..])
  {
    hide EncodeRow, CompressPlane;
    ghost var rows := RowsOf(plane, width, height);
    ghost var goal := CompressPlane(rows, capacity);
    var index: nat, ip: nat, at: nat := 0, 0, 0;
    FollowNothing(goal);
    assert rows[0..] == rows && out[..0] == [];
    while capacity - at != 0
      invariant index < height && ip == index * width && at <= capacity
      invariant Follow(out[..at], CompressPlane(rows[index..], capacity - at)) == goal
      invariant out[capacity..] == old(out[capacity..])
      decreases height - index
    {
      ghost var front := out[..at];
      RowsOfAt(plane, width, height, index);
      CompressTurn(front, rows[index..], capacity - at);
      assert rows[index..][1..] == rows[index + 1..];
      var n := EncodeRleBytes(plane, ip, width, out, at, capacity);
      if n == 0 {
        return false, 0;
      }
      at := at + n;
      RowsStep(index + 1, width);
      ip := ip + width;
      index := index + 1;
      if index >= height {
        return true, at;
      }
    }
    BufferFull(out[..at], rows[index..]);
    ok, size := true, at;
  }

  lemma FollowNothing(r: Option<seq<byte>>)
    ensures Follow([], r) == r
  {
    if r.Some? { assert [] + r.value == r.value; }
  }

  lemma BufferFull(front: seq<byte>, rows: seq<Row>)
    requires rows != []
    ensures Follow(front, CompressPlane(rows, 0)) == Some(front)
  {
    assert front + [] == front;
  }

  /** out holds the delta of plane up to position p. */
  ghost predicate DeltaUpTo(plane: seq<byte>, out: seq<byte>, w: nat, p: int) {
    && w <= p <= |plane| && p <= |out|
    && (forall k :: 0 <= k < w ==> out[k] == plane[k])
    && (forall k :: w <= k < p ==> out[k] == ZigZag(plane[k] as int - plane[k - w] as int))
  }

  /** The inner loop of freerdp_bitmap_planar_delta_encode_plane: one scanline. */
  method DeltaEncodeLine(plane: seq<byte>, width: nat, p0: nat, out: array<byte>) returns (p: nat)
    requires p0 + width <= |plane| && p0 + width <= out.Length && DeltaUpTo(plane, out[..], width, p0)
    modifies out
    ensures p == p0 + width && DeltaUpTo(plane, out[..], width, p)
  {
    hide ZigZag;
    p := p0;
    var x := 0;
    while x < width
      invariant x <= width && p == p0 + x && DeltaUpTo(plane, out[..], width, p)
    {
      ghost var before := out[..];
      out[p] := ZigZag(plane[p] as int - plane[p - width] as int);
      assert out[..] == before[p := ZigZag(plane[p] as int - plane[p - width] as int)];
      p, x := p + 1, x + 1;
    }
  }

  /** freerdp_bitmap_planar_delta_encode_plane. */
  method DeltaEncodePlane(plane: seq<byte>, width: nat, height: nat, out: array<byte>)
    requires height >= 1 && |plane| >= height * width && out.Length >= height * width
    modifies out
    ensures RowsOf(out[..], width, height) == Delta(RowsOf(plane, width, height), width)
  {
    hide ZigZag, RowsOf, Delta;
    RowsStep(height, width);
    forall k | 0 <= k < width { out[k] := plane[k]; }
    var p: nat, y := width, 1;
    while y < height
      invariant 1 <= y <= height && p == y * width && DeltaUpTo(plane, out[..], width, p)
    {
      RowsOfAt(plane, width, height, y);
      p := DeltaEncodeLine(plane, width, p, out);
      RowsStep(y + 1, width);
      y := y + 1;
    }
    DeltaFlat(plane, out[..], width, height);
  }

  lemma DeltaFlat(plane: seq<byte>, out: seq<byte>, w: nat, h: nat)
    requires h >= 1 && |plane| >= h * w && |out| >= h * w && w <= h * w
    requires forall k :: 0 <= k < w ==> out[k] == plane[k]
    requires forall k :: w <= k < h * w ==> out[k] == ZigZag(plane[k] as int - plane[k - w] as int)
    ensures RowsOf(out, w, h) == Delta(RowsOf(plane, w, h), w)
  {
    hide ZigZag, RowsOf, Delta;
    var rows, got := RowsOf(plane, w, h), RowsOf(out, w, h);
    forall y | 0 <= y < h
      ensures got[y] == Delta(rows, w)[y]
    {
      if y == 0 {
        FirstRowFlat(plane, out, w, h);
      } else {
        LaterRowFlat(plane, out, w, h, y);
      }
    }
  }

  lemma FirstRowFlat(plane: seq<byte>, out: seq<byte>, w: nat, h: nat)
    requires h >= 1 && |plane| >= h * w && |out| >= h * w && w <= h * w
    requires forall k :: 0 <= k < w ==> out[k] == plane[k]
    ensures RowsOf(out, w, h)[0] == RowsOf(plane, w, h)[0]
  {
    hide RowsOf;
    RowsOfAt(plane, w, h, 0);
    RowsOfAt(out, w, h, 0);
  }

  lemma LaterRowFlat(plane: seq<byte>, out: seq<byte>, w: nat, h: nat, y: nat)
    requires 0 < y < h && |plane| >= h * w && |out| >= h * w
    requires forall k :: w <= k < h * w ==> out[k] == ZigZag(plane[k] as int - plane[k - w] as int)
    ensures RowsOf(out, w, h)[y] == DeltaRow(RowsOf(plane, w, h)[y - 1], RowsOf(plane, w, h)[y])
  {
    hide ZigZag, RowsOf, DeltaRow;
    var rows, got := RowsOf(plane, w, h), RowsOf(out, w, h);
    RowsOfAt(plane, w, h, y - 1);
    RowsOfAt(plane, w, h, y);
    RowsOfAt(out, w, h, y);
    RowsStep(y, w);
    DeltaRowFlat(plane, out, w, y * w, rows[y - 1], rows[y], got[y]);
  }

  lemma DeltaRowFlat(plane: seq<byte>, out: seq<byte>, w: nat, p: nat, prev: Row, cur: Row, got: Row)
    requires w <= p && p + w <= |plane| && p + w <= |out|
    requires prev == plane[p - w..p] && cur == plane[p..p + w] && got == out[p..p + w]
    requires forall k :: p <= k < p + w ==> out[k] == ZigZag(plane[k] as int - plane[k - w] as int)
    ensures got == DeltaRow(prev, cur)
  {
    hide ZigZag;
    forall x | 0 <= x < w
      ensures got[x] == ZigZag(cur[x] as int - prev[x] as int)
    {
      assert got[x] == out[p + x] && cur[x] == plane[p + x] && prev[x] == plane[p + x - w];
    }
  }
}
