/** How many bytes a planar scanline takes, counted from its runs alone, and how few it could take
    (libfreerdp/codec/planar.c:666-861). */
module PlanarSize {
  import opened Basics
  import opened Bits
  import opened PlanarRle
  import opened Runs

  // ----- the least a code can take

  /** No code of a scanline has less than a byte for 47 symbols. */
  lemma {:induction false} CodeNeeds(b: seq<byte>, w: nat, symbol: byte)
    requires ExpandRow(b, w, symbol).Some?
    ensures |b| - |ExpandRow(b, w, symbol).value.1| >= (w + 46) / 47
    decreases |b|
  {
    hide ExpandRow, Repeat;
    if w == 0 {
      NoRow(b, symbol);
    } else {
      var next := RowRest(b, w, symbol);
      var (raw, run) := Lengths(b[0]);
      CodeNeeds(b[1 + raw..], w - raw - run, next);
    }
  }

  // ----- what the encoder takes

  /** Bytes for a run on its own: one control byte for 47 symbols. */
  function RunBytes(run: nat): nat {
    (run + 46) / 47
  }

  /** Bytes for raw symbols in chunks of 15, each behind a control byte, of which the last also holds up to 15
      symbols of the run that follows. */
  function SegmentBytes(raw: nat, run: nat): nat {
    if raw == 0 then RunBytes(run)
    else raw + (raw + 14) / 15 + (if run <= 15 then 0 else RunBytes(run - 15))
  }

  /** Bytes for the runs from i on, with `raw` raw symbols pending: the first symbol of a run is raw, and the
      others are too if there are fewer than three. */
  function RunsBytes(row: seq<byte>, i: nat, raw: nat): nat
    requires i <= |row|
    decreases |row| - i
  {
    if i == |row| then SegmentBytes(raw, 0)
    else
      var len := RunFrom(row, i);
      if len < 4 then RunsBytes(row, i + len, raw + len)
      else SegmentBytes(raw + 1, len - 1) + RunsBytes(row, i + len, 0)
  }

  /** Bytes for a scanline; a run of zeros at the front has no raw symbol. */
  function RowBytes(row: seq<byte>): nat {
    var zeros := Lead(row, 0, 0);
    if zeros < 3 then RunsBytes(row, zeros, zeros) else SegmentBytes(0, zeros) + RunsBytes(row, zeros, 0)
  }

  lemma {:induction false} RunsLength(run: nat)
    requires run == 0 || run >= 3
    ensures |WriteRuns(run)| == RunBytes(run)
  {
    if run > 47 { RunsLength(run - (if run < 50 then 45 else 47)); }
  }

  lemma {:induction false} RawsLength(data: seq<byte>, raw: nat, run: nat)
    requires raw <= |data| && (run == 0 || run >= 3)
    ensures |WriteRaws(data, raw, run)| == SegmentBytes(raw, run)
    decreases raw
  {
    hide WriteRuns;
    if raw == 0 {
      RunsLength(run);
    } else if raw < 16 {
      if run > 15 { RunsLength(run - (if run < 18 then 13 else 15)); }
    } else {
      RawsLength(data[15..], raw - 15, run);
    }
  }

  lemma SegmentLength(data: seq<byte>, raw: nat, run: nat)
    requires raw + run <= |data|
    ensures |WriteSegment(data, raw, run)| == if run < 3 then SegmentBytes(raw + run, 0) else SegmentBytes(raw, run)
  {
    hide WriteRaws;
    if run < 3 { RawsLength(data, raw + run, 0); } else { RawsLength(data, raw, run); }
  }

  /** The bytes for `raw` raw symbols and a run, and for the runs from i on. */
  function PendingBytes(row: seq<byte>, i: nat, raw: nat, run: nat): nat
    requires i <= |row|
  {
    if run < 3 then RunsBytes(row, i, raw + run) else SegmentBytes(raw, run) + RunsBytes(row, i, 0)
  }

  /** What the encoder still writes. */
  lemma {:induction false} EncodeLength(row: seq<byte>, i: nat, symbol: byte, raw: nat, run: nat)
    requires raw + run <= i <= |row|
    ensures var more := Lead(row, i, symbol);
            |EncodeFrom(row, i, symbol, raw, run)| == PendingBytes(row, i + more, raw, run + more)
    decreases |row| - i
  {
    hide WriteSegment, SegmentBytes, EncodeFrom, RunsBytes;
    var start := i - raw - run;
    EncodeTurn(row, i, symbol, raw, run);
    if i == |row| {
      SegmentLength(row[start..i], raw, run);
      NoRunsLeft(row, raw + run);
      NoRunsLeft(row, 0);
      NoSegment();
    } else if row[i] == symbol {
      EncodeLength(row, i + 1, row[i], raw, run + 1);
    } else if run < 3 {
      EncodeLength(row, i + 1, row[i], raw + run + 1, 0);
      RunOpened(row, i, raw + run);
    } else {
      SegmentLength(row[start..i], raw, run);
      EncodeLength(row, i + 1, row[i], 1, 0);
      RunOpened(row, i, 0);
    }
  }

  /** The length of what one turn of the encoder writes and of the rest. */
  lemma EncodeTurn(row: seq<byte>, i: nat, symbol: byte, raw: nat, run: nat)
    requires raw + run <= i <= |row|
    ensures var segment := row[i - raw - run..i];
            |EncodeFrom(row, i, symbol, raw, run)| ==
            if i == |row| then (if raw + run > 0 then |WriteSegment(segment, raw, run)| else 0)
            else if row[i] == symbol then |EncodeFrom(row, i + 1, row[i], raw, run + 1)|
            else if run < 3 then |EncodeFrom(row, i + 1, row[i], raw + run + 1, 0)|
            else |WriteSegment(segment, raw, run)| + |EncodeFrom(row, i + 1, row[i], 1, 0)|
  {
    hide WriteSegment;
  }

  lemma NoRunsLeft(row: seq<byte>, raw: nat)
    ensures RunsBytes(row, |row|, raw) == SegmentBytes(raw, 0)
  {
    hide SegmentBytes;
  }

  lemma NoSegment()
    ensures SegmentBytes(0, 0) == 0
  {
  }

  /** A run that starts at i: its first symbol is raw. */
  lemma RunOpened(row: seq<byte>, i: nat, raw: nat)
    requires i < |row|
    ensures var more := Lead(row, i + 1, row[i]);
            RunsBytes(row, i, raw) == PendingBytes(row, i + 1 + more, raw + 1, more)
  {
    hide SegmentBytes;
    assert RunFrom(row, i) == 1 + Lead(row, i + 1, row[i]);
  }

  /** The encoder takes exactly the bytes that the runs of the scanline ask for. */
  lemma RowLength(row: seq<byte>)
    ensures |EncodeRow(row)| == RowBytes(row)
  {
    hide EncodeFrom, RunsBytes, SegmentBytes;
    EncodeLength(row, 0, 0, 0, 0);
  }

  /** For a scanline of zeros no code is shorter. */
  lemma ZerosShortest(w: nat, b: seq<byte>, rest: seq<byte>)
    requires w >= 3 && ExpandRow(b + rest, w, 0) == Some((Repeat(0, w), rest))
    ensures |EncodeRow(Repeat(0, w))| == (w + 46) / 47 <= |b|
  {
    hide EncodeRow, ExpandRow;
    RowLength(Repeat(0, w));
    LeadIs(Repeat(0, w), 0, 0, w);
    CodeNeeds(b + rest, w, 0);
    NoSegment();
  }

  /** Any other symbol takes two bytes for the first sixteen. */
  lemma ConstantRow(v: byte, w: nat)
    requires v != 0 && w >= 4
    ensures |EncodeRow(Repeat(v, w))| == 2 + (if w <= 16 then 0 else (w + 30) / 47)
  {
    hide EncodeRow;
    var row := Repeat(v, w);
    RowLength(row);
    LeadIs(row, 0, 0, 0);
    LeadIs(row, 0, v, w);
    NoRunsLeft(row, 0);
    NoSegment();
  }
}
