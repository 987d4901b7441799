/** The run-length code of a planar scanline: what the encoder writes, what the parsers read, and
    why reading gives back what was written (libfreerdp/codec/planar.c, section 2.2.2.5.1 of
    [MS-RDPEGDI]). */
module PlanarRle {
  import opened Basics
  import opened Bits

  /** PLANAR_CONTROL_BYTE: run length in the low nibble, raw count in the high one. */
  function Control(run: nat, raw: nat): byte {
    run % 16 + (raw % 16) * 16
  }

  /** The raw count and run length a control byte stands for: run nibbles 1 and 2 turn the raw
      nibble into a long run. */
  function Lengths(c: byte): (r: (nat, nat))
    ensures r.0 <= 15
  {
    if c % 16 == 1 then (0, c / 16 + 16)
    else if c % 16 == 2 then (0, c / 16 + 32)
    else (c / 16, c % 16)
  }

  // ----- reading

  /** A scanline of `w` symbols and the bytes left over, or None where planar_skip_plane_rle
      gives up. */
  function ExpandRow(b: seq<byte>, w: nat, symbol: byte): (r: Option<(seq<byte>, seq<byte>)>)
    ensures r.Some? ==> |r.value.0| == w && |r.value.1| <= |b| && r.value.1 == b[|b| - |r.value.1|..]
    decreases |b|
  {
    if w == 0 then Some(([], b))
    else if b == [] then None
    else
      var (raw, run) := Lengths(b[0]);
      if raw + run > w || 1 + raw > |b| then None
      else
        var symbol' := if raw > 0 then b[raw] else symbol;
        match ExpandRow(b[1 + raw..], w - raw - run, symbol')
        case None => None
        case Some((row, rest)) => Some((b[1..1 + raw] + Repeat(symbol', run) + row, rest))
  }

  /** A scanline depends on its own bytes only. */
  lemma {:induction false} RowPrefix(b: seq<byte>, w: nat, symbol: byte, t: seq<byte>)
    requires ExpandRow(b, w, symbol).Some?
    ensures var (row, rest) := ExpandRow(b, w, symbol).value;
            ExpandRow(b[..|b| - |rest|] + t, w, symbol) == Some((row, t))
    decreases |b|
  {
    hide Lengths, Repeat, ExpandRow;
    if w == 0 {
      NoRow(b, symbol);
      NoRow(b[..0] + t, symbol);
      assert b[..0] + t == t;
    } else {
      var next := RowRest(b, w, symbol);
      var raw := Lengths(b[0]).0;
      var later := b[1 + raw..];
      var rest := ExpandRow(b, w, symbol).value.1;
      var c := b[..|b| - |rest|] + t;
      RowPrefix(later, w - raw - Lengths(b[0]).1, next, t);
      CutBehind(b, |b| - |rest|, 1 + raw, t);
      RowFrom(c, w, symbol, next);
      RowFrom(b, w, symbol, next);
    }
  }

  /** The first k bytes of a cut sequence, and what is behind them. */
  lemma CutBehind(b: seq<byte>, n: nat, k: nat, t: seq<byte>)
    requires 1 <= k <= n <= |b|
    ensures (b[..n] + t)[k..] == b[k..][..n - k] + t && (b[..n] + t)[1..k] == b[1..k]
    ensures forall i :: 0 <= i < k ==> (b[..n] + t)[i] == b[i]
  {
    var c := b[..n] + t;
    assert c[k..] == c[k..n] + c[n..] && c[n..] == t;
    assert c[k..n] == b[k..n] == b[k..][..n - k];
  }

  lemma NoRow(b: seq<byte>, symbol: byte)
    ensures ExpandRow(b, 0, symbol) == Some(([], b))
  {
  }

  /** The symbol that is current behind the first control byte of a scanline. */
  lemma RowRest(b: seq<byte>, w: nat, symbol: byte) returns (next: byte)
    requires w > 0 && ExpandRow(b, w, symbol).Some?
    ensures b != [] && var (raw, run) := Lengths(b[0]);
            && raw + run <= w && 1 + raw <= |b| && next == (if raw > 0 then b[raw] else symbol)
            && ExpandRow(b[1 + raw..], w - raw - run, next).Some?
            && ExpandRow(b[1 + raw..], w - raw - run, next).value.1 == ExpandRow(b, w, symbol).value.1
  {
    hide Lengths, Repeat;
    var raw := Lengths(b[0]).0;
    next := if raw > 0 then b[raw] else symbol;
  }

  /** A scanline from what its first control byte stands for and what comes after. */
  lemma RowFrom(b: seq<byte>, w: nat, symbol: byte, next: byte)
    requires w > 0 && b != []
    requires var (raw, run) := Lengths(b[0]);
             && raw + run <= w && 1 + raw <= |b| && next == (if raw > 0 then b[raw] else symbol)
             && ExpandRow(b[1 + raw..], w - raw - run, next).Some?
    ensures var (raw, run) := Lengths(b[0]);
            var (row, rest) := ExpandRow(b[1 + raw..], w - raw - run, next).value;
            ExpandRow(b, w, symbol) == Some((b[1..1 + raw] + Repeat(next, run) + row, rest))
  {
    hide Lengths, Repeat;
  }

  // ----- writing

  /** The run loop of freerdp_bitmap_planar_write_rle_bytes. */
  function WriteRuns(run: nat): seq<byte> {
    if run == 0 then []
    else if run > 47 then
      if run < 50 then [Control(2, 13)] + WriteRuns(run - 45) else [Control(2, 15)] + WriteRuns(run - 47)
    else if run > 31 then [Control(2, run - 32)]
    else if run > 15 then [Control(1, run - 16)]
    else [Control(run, 0)]
  }

  /** The raw loop of freerdp_bitmap_planar_write_rle_bytes, followed by the run loop. */
  function WriteRaws(data: seq<byte>, raw: nat, run: nat): seq<byte>
    requires raw <= |data|
    decreases raw
  {
    if raw == 0 then WriteRuns(run)
    else if raw < 16 then
      if run > 15 then
        if run < 18 then [Control(13, raw)] + data[..raw] + WriteRuns(run - 13)
        else [Control(15, raw)] + data[..raw] + WriteRuns(run - 15)
      else [Control(run, raw)] + data[..raw]
    else [Control(0, 15)] + data[..15] + WriteRaws(data[15..], raw - 15, run)
  }

  /** freerdp_bitmap_planar_write_rle_bytes: raw bytes followed by a run, a short run as raw bytes. */
  function WriteSegment(data: seq<byte>, raw: nat, run: nat): seq<byte>
    requires raw + run <= |data|
  {
    if run < 3 then WriteRaws(data, raw + run, 0) else WriteRaws(data, raw, run)
  }

  /** freerdp_bitmap_planar_encode_rle_bytes from symbol i on, with `raw` raw bytes and a run of
      `run` symbols pending. */
  function EncodeFrom(row: seq<byte>, i: nat, symbol: byte, raw: nat, run: nat): seq<byte>
    requires raw + run <= i <= |row|
    decreases |row| - i
  {
    var start := i - raw - run;
    if i == |row| then
      if raw + run > 0 then WriteSegment(row[start..i], raw, run) else []
    else if row[i] == symbol then EncodeFrom(row, i + 1, row[i], raw, run + 1)
    else if run == 0 then EncodeFrom(row, i + 1, row[i], raw + 1, 0)
    else if run < 3 then EncodeFrom(row, i + 1, row[i], raw + run + 1, 0)
    else WriteSegment(row[start..i], raw, run) + EncodeFrom(row, i + 1, row[i], 1, 0)
  }

  function EncodeRow(row: seq<byte>): seq<byte> {
    EncodeFrom(row, 0, 0, 0, 0)
  }

  // ----- reading back what was written

  lemma PrependTwice(a: seq<byte>, b: seq<byte>, r: Option<(seq<byte>, seq<byte>)>)
    ensures Prepend(a, Prepend(b, r)) == Prepend(a + b, r)
  {
    if r.Some? { assert a + (b + r.value.0) == a + b + r.value.0; }
  }

  lemma ReadControl(c: byte, lit: seq<byte>, run: nat, rest: seq<byte>, w: nat, symbol: byte)
    requires Lengths(c) == (|lit|, run) && |lit| + run > 0
    ensures var last := if lit != [] then lit[|lit| - 1] else symbol;
            ExpandRow([c] + lit + rest, |lit| + run + w, symbol) ==
            Prepend(lit + Repeat(last, run), ExpandRow(rest, w, last))
  {
    hide Lengths, Repeat;
    ControlSlices(c, lit, rest);
    assert |[c] + lit + rest| >= 1 + |lit|;
  }

  lemma ControlSlices(c: byte, lit: seq<byte>, rest: seq<byte>)
    ensures var b := [c] + lit + rest;
            && b[0] == c && b[1..1 + |lit|] == lit && b[1 + |lit|..] == rest
            && (lit != [] ==> b[|lit|] == lit[|lit| - 1])
  {
  }

  lemma LengthsOfControl(run: nat, raw: nat)
    requires run < 16 && raw < 16 && run != 1 && run != 2
    ensures Lengths(Control(run, raw)) == (raw, run)
  {
  }

  lemma ReadRun(c: byte, run: nat, rest: seq<byte>, w: nat, symbol: byte)
    requires Lengths(c) == (0, run) && run > 0
    ensures ExpandRow([c] + rest, run + w, symbol) == Prepend(Repeat(symbol, run), ExpandRow(rest, w, symbol))
  {
    hide ExpandRow;
    ReadControl(c, [], run, rest, w, symbol);
    assert [c] + [] + rest == [c] + rest && [] + Repeat(symbol, run) == Repeat(symbol, run);
  }

  lemma RepeatSplit(symbol: byte, m: nat, n: nat)
    ensures Repeat(symbol, m) + Repeat(symbol, n) == Repeat(symbol, m + n)
  {
  }

  lemma PrependNothing(r: Option<(seq<byte>, seq<byte>)>)
    ensures Prepend([], r) == r
  {
    if r.Some? { assert [] + r.value.0 == r.value.0; }
  }

  lemma {:induction false} RunsReadBack(run: nat, rest: seq<byte>, w: nat, symbol: byte)
    requires run == 0 || run >= 3
    ensures ExpandRow(WriteRuns(run) + rest, run + w, symbol) ==
            Prepend(Repeat(symbol, run), ExpandRow(rest, w, symbol))
    decreases run
  {
    hide ExpandRow, Prepend;
    if run == 0 {
      assert WriteRuns(0) + rest == rest;
      PrependNothing(ExpandRow(rest, w, symbol));
    } else if run > 47 {
      var n := if run < 50 then 45 else 47;
      var tail := WriteRuns(run - n) + rest;
      assert WriteRuns(run) + rest == [Control(2, n - 32)] + tail;
      LengthsOfLong(2, n - 32);
      ReadRun(Control(2, n - 32), n, tail, run - n + w, symbol);
      RunsReadBack(run - n, rest, w, symbol);
      PrependTwice(Repeat(symbol, n), Repeat(symbol, run - n), ExpandRow(rest, w, symbol));
      RepeatSplit(symbol, n, run - n);
    } else {
      ShortRun(run);
      ReadRun(WriteRuns(run)[0], run, rest, w, symbol);
    }
  }

  lemma ShortRun(run: nat)
    requires 3 <= run <= 47
    ensures var r := WriteRuns(run); |r| == 1 && r == [r[0]] && Lengths(r[0]) == (0, run)
  {
    if run > 31 { LengthsOfLong(2, run - 32); }
    else if run > 15 { LengthsOfLong(1, run - 16); }
    else { LengthsOfControl(run, 0); }
  }

  lemma LengthsOfLong(k: nat, m: nat)
    requires 1 <= k <= 2 && m < 16
    ensures Lengths(Control(k, m)) == (0, m + 16 * k)
  {
  }

  lemma RawChunk(data: seq<byte>, n: nat)
    requires 0 < n <= |data|
    ensures data[..n] + data[n..] == data && |data[..n]| == n
  {
  }

  /** Raw bytes, in chunks of fifteen, and the run after them are read back; the run repeats the
      last raw byte, or the symbol before the segment when there are no raw bytes. */
  lemma {:induction false} RawsReadBack(data: seq<byte>, run: nat, rest: seq<byte>, w: nat, symbol: byte)
    requires run == 0 || run >= 3
    ensures var last := if data != [] then data[|data| - 1] else symbol;
            ExpandRow(WriteRaws(data, |data|, run) + rest, |data| + run + w, symbol) ==
            Prepend(data + Repeat(last, run), ExpandRow(rest, w, last))
    decreases |data|
  {
    hide ExpandRow, Prepend, WriteRuns;
    if data == [] {
      RunsReadBack(run, rest, w, symbol);
      assert data + Repeat(symbol, run) == Repeat(symbol, run);
    } else if |data| < 16 {
      LastChunk(data, run, rest, w, symbol);
    } else {
      var chunk, more := data[..15], data[15..];
      RawChunk(data, 15);
      RawsReadBack(more, run, rest, w, chunk[14]);
      FullChunk(data, run, rest, w, symbol);
    }
  }

  lemma FullChunk(data: seq<byte>, run: nat, rest: seq<byte>, w: nat, symbol: byte)
    requires |data| >= 16 && (run == 0 || run >= 3)
    requires var more := data[15..];
      ExpandRow(WriteRaws(more, |more|, run) + rest, |more| + run + w, data[14]) ==
      Prepend(more + Repeat(data[|data| - 1], run), ExpandRow(rest, w, data[|data| - 1]))
    ensures ExpandRow(WriteRaws(data, |data|, run) + rest, |data| + run + w, symbol) ==
            Prepend(data + Repeat(data[|data| - 1], run), ExpandRow(rest, w, data[|data| - 1]))
  {
    hide ExpandRow, Prepend, WriteRuns;
    var chunk, more, last := data[..15], data[15..], data[|data| - 1];
    var tail := WriteRaws(more, |more|, run) + rest;
    assert WriteRaws(data, |data|, run) + rest == [Control(0, 15)] + chunk + tail;
    ReadControl(Control(0, 15), chunk, 0, tail, |more| + run + w, symbol);
    assert chunk + Repeat(chunk[14], 0) == chunk;
    PrependTwice(chunk, more + Repeat(last, run), ExpandRow(rest, w, last));
    assert chunk + (more + Repeat(last, run)) == data + Repeat(last, run);
  }

  lemma LastChunk(data: seq<byte>, run: nat, rest: seq<byte>, w: nat, symbol: byte)
    requires 0 < |data| < 16 && (run == 0 || run >= 3)
    ensures ExpandRow(WriteRaws(data, |data|, run) + rest, |data| + run + w, symbol) ==
            Prepend(data + Repeat(data[|data| - 1], run), ExpandRow(rest, w, data[|data| - 1]))
  {
    hide ExpandRow, Prepend, WriteRuns;
    var last, n := data[|data| - 1], if run <= 15 then run else if run < 18 then 13 else 15;
    var tail := WriteRuns(run - n) + rest;
    LengthsOfControl(n, |data|);
    LastChunkBytes(data, run, n, rest);
    ReadControl(Control(n, |data|), data, n, tail, run - n + w, symbol);
    RunsReadBack(run - n, rest, w, last);
    PrependTwice(data + Repeat(last, n), Repeat(last, run - n), ExpandRow(rest, w, last));
    RepeatSplit(last, n, run - n);
    assert data + Repeat(last, n) + Repeat(last, run - n) == data + (Repeat(last, n) + Repeat(last, run - n));
  }

  lemma LastChunkBytes(data: seq<byte>, run: nat, n: nat, rest: seq<byte>)
    requires 0 < |data| < 16 && n == (if run <= 15 then run else if run < 18 then 13 else 15)
    ensures WriteRaws(data, |data|, run) + rest == [Control(n, |data|)] + data + (WriteRuns(run - n) + rest)
  {
    assert data[..|data|] == data;
  }

  // ----- a whole scanline

  /** The symbol in force before position i: runs at the start of a row repeat zero. */
  function Previous(row: seq<byte>, i: nat): byte
    requires i <= |row|
  {
    if i == 0 then 0 else row[i - 1]
  }

  /** The last `run` symbols before i repeat the symbol before them. */
  ghost predicate IsRun(row: seq<byte>, i: int, run: int) {
    0 <= run <= i <= |row| && forall k :: i - run <= k < i ==> row[k] == Previous(row, i - run)
  }

  lemma RunGrows(row: seq<byte>, i: nat, run: nat)
    requires i < |row| && IsRun(row, i, run) && row[i] == Previous(row, i)
    ensures IsRun(row, i + 1, run + 1)
  {
  }

  /** Reading b in front of rest gives the row from `start` on, and leaves rest. */
  ghost predicate ReadsBack(row: seq<byte>, start: nat, b: seq<byte>, rest: seq<byte>)
    requires start <= |row|
  {
    ExpandRow(b + rest, |row| - start, Previous(row, start)) == Some((row[start..], rest))
  }

  lemma SegmentReadBack(row: seq<byte>, i: nat, raw: nat, run: nat, rest: seq<byte>, w: nat)
    requires raw + run <= i <= |row| && IsRun(row, i, run)
    ensures var start := i - raw - run;
            ExpandRow(WriteSegment(row[start..i], raw, run) + rest, raw + run + w, Previous(row, start)) ==
            Prepend(row[start..i], ExpandRow(rest, w, Previous(row, i)))
  {
    hide ExpandRow, Prepend, WriteRaws;
    var start := i - raw - run;
    var data := row[start..i];
    if run < 3 {
      RawsReadBack(data, 0, rest, w, Previous(row, start));
      assert data + Repeat(Previous(row, i), 0) == data;
    } else {
      var lit := row[start..i - run];
      RawsReadBack(lit, run, rest, w, Previous(row, start));
      WriteRawsPrefix(data, lit, run);
      assert lit + Repeat(Previous(row, i - run), run) == data;
    }
  }

  lemma {:induction false} WriteRawsPrefix(data: seq<byte>, lit: seq<byte>, run: nat)
    requires |lit| <= |data| && lit == data[..|lit|]
    ensures WriteRaws(data, |lit|, run) == WriteRaws(lit, |lit|, run)
    decreases |lit|
  {
    if |lit| >= 16 {
      assert lit[..15] == data[..15];
      WriteRawsPrefix(data[15..], lit[15..], run);
    } else {
      assert data[..|lit|] == lit[..|lit|];
    }
  }

  /** Whatever the encoder has pending, what it still writes reads back as the rest of the row. */
  lemma {:induction false} EncodeReadsBack(row: seq<byte>, i: nat, raw: nat, run: nat, rest: seq<byte>)
    requires raw + run <= i <= |row| && IsRun(row, i, run)
    ensures ReadsBack(row, i - raw - run, EncodeFrom(row, i, Previous(row, i), raw, run), rest)
    decreases |row| - i
  {
    hide ExpandRow, WriteSegment, EncodeFrom, Prepend, ReadsBack;
    EncodeUnfold(row, i, raw, run);
    if i == |row| {
      EndReadsBack(row, raw, run, rest);
    } else if row[i] == Previous(row, i) {
      RunGrows(row, i, run);
      EncodeReadsBack(row, i + 1, raw, run + 1, rest);
    } else if run == 0 {
      EncodeReadsBack(row, i + 1, raw + 1, 0, rest);
    } else if run < 3 {
      EncodeReadsBack(row, i + 1, raw + run + 1, 0, rest);
    } else {
      EncodeReadsBack(row, i + 1, 1, 0, rest);
      SegmentThenRest(row, i, raw, run, EncodeFrom(row, i + 1, row[i], 1, 0), rest);
    }
  }

  lemma EncodeUnfold(row: seq<byte>, i: nat, raw: nat, run: nat)
    requires raw + run <= i <= |row|
    ensures var start := i - raw - run;
            EncodeFrom(row, i, Previous(row, i), raw, run) ==
            if i == |row| then
              if raw + run > 0 then WriteSegment(row[start..i], raw, run) else []
            else if row[i] == Previous(row, i) then EncodeFrom(row, i + 1, Previous(row, i + 1), raw, run + 1)
            else if run == 0 then EncodeFrom(row, i + 1, Previous(row, i + 1), raw + 1, 0)
            else if run < 3 then EncodeFrom(row, i + 1, Previous(row, i + 1), raw + run + 1, 0)
            else WriteSegment(row[start..i], raw, run) + EncodeFrom(row, i + 1, Previous(row, i + 1), 1, 0)
  {
    hide WriteSegment;
  }

  lemma SegmentThenRest(row: seq<byte>, i: nat, raw: nat, run: nat, later: seq<byte>, rest: seq<byte>)
    requires raw + run <= i < |row| && run >= 3 && IsRun(row, i, run) && ReadsBack(row, i, later, rest)
    ensures ReadsBack(row, i - raw - run, WriteSegment(row[i - raw - run..i], raw, run) + later, rest)
  {
    hide WriteSegment, ExpandRow;
    var start := i - raw - run;
    SegmentReadBack(row, i, raw, run, later + rest, |row| - i);
    var segment := WriteSegment(row[start..i], raw, run);
    assert segment + later + rest == segment + (later + rest);
    assert row[start..i] + row[i..] == row[start..];
  }

  lemma EndReadsBack(row: seq<byte>, raw: nat, run: nat, rest: seq<byte>)
    requires raw + run <= |row| && IsRun(row, |row|, run)
    ensures var start := |row| - raw - run;
            ReadsBack(row, start, if raw + run > 0 then WriteSegment(row[start..|row|], raw, run) else [], rest)
  {
    hide WriteSegment;
    var start := |row| - raw - run;
    if raw + run > 0 {
      SegmentReadBack(row, |row|, raw, run, rest, 0);
      assert row[start..|row|] == row[start..] && row[start..] + [] == row[start..];
    } else {
      assert [] + rest == rest && row[start..] == [];
    }
  }

  /** Every scanline survives the code, and the reader stops exactly behind it. */
  lemma RowRoundTrip(row: seq<byte>, rest: seq<byte>)
    ensures ExpandRow(EncodeRow(row) + rest, |row|, 0) == Some((row, rest))
  {
    EncodeReadsBack(row, 0, 0, 0, rest);
  }

  // ----- how long an encoded scanline is

  lemma {:induction false} RunsCost(run: nat)
    requires run == 0 || run >= 3
    ensures |WriteRuns(run)| <= (if run == 0 then 0 else run - 2)
  {
    if run > 47 { RunsCost(run - (if run < 50 then 45 else 47)); }
  }

  lemma {:induction false} RawsCost(data: seq<byte>, raw: nat, run: nat)
    requires raw <= |data| && (run == 0 || run >= 3)
    ensures |WriteRaws(data, raw, run)| <= raw + (raw + 14) / 15
                                           + (if raw > 0 && run > 15 then run - 15 else 0)
                                           + (if raw == 0 && run > 0 then run - 2 else 0)
    decreases raw
  {
    hide WriteRuns;
    if raw == 0 {
      RunsCost(run);
    } else if raw < 16 {
      if run > 15 { RunsCost(run - (if run < 18 then 13 else 15)); }
    } else {
      RawsCost(data[15..], raw - 15, run);
    }
  }

  lemma SegmentCost(data: seq<byte>, raw: nat, run: nat)
    requires raw + run <= |data|
    ensures |WriteSegment(data, raw, run)| <= raw + run + (raw + run + 14) / 15
    ensures run >= 3 ==> |WriteSegment(data, raw, run)| <= raw + run + (raw + run) / 15
  {
    hide WriteRaws;
    if run < 3 { RawsCost(data, raw + run, 0); } else { RawsCost(data, raw, run); }
  }

  lemma {:induction false} EncodeCost(row: seq<byte>, i: nat, symbol: byte, raw: nat, run: nat)
    requires raw + run <= i <= |row|
    ensures var n := |row| - (i - raw - run); |EncodeFrom(row, i, symbol, raw, run)| <= n + (n + 14) / 15
    decreases |row| - i
  {
    hide WriteSegment;
    var start := i - raw - run;
    if i == |row| {
      if raw + run > 0 { SegmentCost(row[start..i], raw, run); }
    } else if row[i] == symbol {
      EncodeCost(row, i + 1, row[i], raw, run + 1);
    } else if run == 0 {
      EncodeCost(row, i + 1, row[i], raw + 1, 0);
    } else if run < 3 {
      EncodeCost(row, i + 1, row[i], raw + run + 1, 0);
    } else {
      SegmentCost(row[start..i], raw, run);
      EncodeCost(row, i + 1, row[i], 1, 0);
    }
  }

  /** A row of w symbols takes at most w + ceil(w / 15) bytes. */
  lemma RowCost(row: seq<byte>)
    ensures |EncodeRow(row)| <= |row| + (|row| + 14) / 15
  {
    EncodeCost(row, 0, 0, 0, 0);
  }

  lemma RowNotEmpty(row: seq<byte>)
    requires row != []
    ensures EncodeRow(row) != []
  {
    RowRoundTrip(row, []);
    assert ExpandRow([], |row|, 0) == None;
    assert EncodeRow(row) + [] == EncodeRow(row);
  }
}
