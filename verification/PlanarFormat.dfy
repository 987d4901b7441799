/** The bytes of planar scanlines (libfreerdp/codec/planar.c:666-861, 1000-1057; section 2.2.2.5.1 of
    [MS-RDPEGDI]). */
module PlanarFormat {
  import opened Basics
  import opened Bits
  import opened PlanarRle
  import opened PlanarPlane
  import opened PlanarSize
  import opened Runs

  /** A run at the start of a scanline: the low nibble is its length up to 15; with 1 and 2 there the high nibble
      counts from 16 and from 32; a longer run starts with 47 symbols, or with 45 where that would leave less
      than three. */
  lemma RunForm(w: nat)
    requires w >= 3
    ensures EncodeRow(Repeat(0, w)) ==
            if w <= 15 then [w]
            else if w <= 31 then [16 * (w - 16) + 1]
            else if w <= 47 then [16 * (w - 32) + 2]
            else if w <= 49 then [0xD2] + EncodeRow(Repeat(0, w - 45))
            else [0xF2] + EncodeRow(Repeat(0, w - 47))
  {
    hide WriteRuns;
    ZeroRow(w);
    RunsForm(w);
    if w > 47 { ZeroRow(w - if w <= 49 then 45 else 47); }
  }

  lemma RunsForm(run: nat)
    requires run >= 3
    ensures WriteRuns(run) ==
            if run <= 15 then [run]
            else if run <= 31 then [16 * (run - 16) + 1]
            else if run <= 47 then [16 * (run - 32) + 2]
            else if run <= 49 then [0xD2] + WriteRuns(run - 45)
            else [0xF2] + WriteRuns(run - 47)
  {
  }

  lemma {:induction false} ZerosFrom(w: nat, i: nat)
    requires i <= w && w >= 3
    ensures EncodeFrom(Repeat(0, w), i, 0, 0, i) == WriteRuns(w)
    decreases w - i
  {
    hide WriteRuns;
    if i < w { ZerosFrom(w, i + 1); }
  }

  lemma ZeroRow(w: nat)
    requires w >= 3
    ensures EncodeRow(Repeat(0, w)) == WriteRuns(w)
  {
    hide WriteRuns;
    ZerosFrom(w, 0);
  }

  /** Symbols that all differ from their neighbours, up to 15 of them, are raw behind their number in the high
      nibble; a run of up to 15 behind them goes into the same control byte. */
  lemma RawForm(row: seq<byte>, raw: nat, run: nat)
    requires 1 <= raw <= 15 && 3 <= run <= 15 && |row| == raw + run && row[0] != 0
    requires forall k {:trigger row[k]} :: 1 <= k < raw ==> row[k] != row[k - 1]
    requires forall k {:trigger row[k]} :: raw <= k < |row| ==> row[k] == row[raw - 1]
    ensures EncodeRow(row) == [16 * raw + run] + row[..raw]
  {
    hide WriteSegment;
    RawsFrom(row, raw, run, 0);
    RawSegment(row, raw, run);
  }

  lemma RawSegment(row: seq<byte>, raw: nat, run: nat)
    requires 1 <= raw <= 15 && 3 <= run <= 15 && |row| == raw + run
    ensures WriteSegment(row[0..|row|], raw, run) == [16 * raw + run] + row[..raw]
  {
    assert row[0..|row|] == row;
  }

  lemma {:induction false} RawsFrom(row: seq<byte>, raw: nat, run: nat, i: nat)
    requires 1 <= raw <= 15 && 3 <= run <= 15 && |row| == raw + run && row[0] != 0 && i <= |row|
    requires forall k {:trigger row[k]} :: 1 <= k < raw ==> row[k] != row[k - 1]
    requires forall k {:trigger row[k]} :: raw <= k < |row| ==> row[k] == row[raw - 1]
    ensures var symbol := if i == 0 then 0 else row[i - 1];
            EncodeFrom(row, i, symbol, if i <= raw then i else raw, if i <= raw then 0 else i - raw) ==
            WriteSegment(row[0..|row|], raw, run)
    decreases |row| - i
  {
    hide WriteSegment;
    if i < |row| { RawsFrom(row, raw, run, i + 1); }
  }

  lemma ZigZagForm(d: int)
    requires -255 <= d <= 255
    ensures ZigZag(d) ==
            if d >= 128 then 2 * (256 - d) - 1
            else if d >= 0 then 2 * d
            else if d >= -128 then -2 * d - 1
            else 2 * (d + 256)
  {
  }

  /** The delta of a symbol is its distance from the one above as a signed byte d: 2 * d, or -2 * d - 1 for a
      negative one. */
  lemma DeltaForm(rows: seq<Row>, w: nat, y: nat, x: nat)
    requires Uniform(rows, w) && 0 < y < |rows| && x < w
    ensures var d := rows[y][x] as int - rows[y - 1][x] as int;
            Delta(rows, w)[y][x] ==
            if d >= 128 then 2 * (256 - d) - 1
            else if d >= 0 then 2 * d
            else if d >= -128 then -2 * d - 1
            else 2 * (d + 256)
  {
    hide Delta, DeltaRow, ZigZag;
    ZigZagForm(rows[y][x] as int - rows[y - 1][x] as int);
    assert Delta(rows, w)[y] == DeltaRow(rows[y - 1], rows[y]);
  }
}
