/** Small inputs of the audio and plane codecs with the bytes and samples they give, for the order of the nibbles,
    the bytes and the header fields (libfreerdp/codec/dsp.c, nsc_encode.c and planar.c). */
module KnownAnswers {
  import opened Basics
  import opened Bits
  import opened ImaAdpcm
  import opened MsAdpcm
  import PlanarFormat
  import PlanarPlane
  import PlanarRle
  import NscRle

  // ----- IMA ADPCM

  function Still(): State {
    State(Channel(0, 0), Channel(0, 0))
  }

  lemma CodesHeard(codes: seq<nibble>)
    requires |codes| == 2
    ensures Decoded(Channel(0, 0), codes) ==
            [DecodeSample(Channel(0, 0), codes[0]).sample,
             DecodeSample(DecodeSample(Channel(0, 0), codes[0]), codes[1]).sample]
  {
    hide DecodeSample;
    var c := Channel(0, 0);
    assert DecodeAt(c, codes, 0) == c;
    assert DecodeAt(c, codes, 1) == DecodeSample(c, codes[0]);
    assert DecodeAt(c, codes, 2) == DecodeSample(DecodeAt(c, codes, 1), codes[1]);
  }

  lemma MonoByte(x: byte)
    ensures var c := DecodeSample(Channel(0, 0), x % 16);
            DecodeUnit(Still(), [x], false).0 == [c.sample, DecodeSample(c, x / 16).sample]
  {
    hide DecodeSample, Decoded, DecodeAt;
    CodesHeard(Split([x]));
  }

  lemma Steps()
    ensures DecodeSample(Channel(0, 0), 0) == Channel(0, 0) && DecodeSample(Channel(0, 0), 7) == Channel(11, 8)
    ensures DecodeSample(Channel(11, 8), 7).sample == 41 && DecodeSample(Channel(11, 8), 0).sample == 13
    ensures DecodeSample(Channel(11, 8), 15).sample == -19
  {
  }

  /** The low nibble of a data byte comes first. */
  lemma ImaBytes()
    ensures DecodeUnit(Still(), [0x77], false).0 == [11, 41]
    ensures DecodeUnit(Still(), [0x07], false).0 == [11, 13]
    ensures DecodeUnit(Still(), [0x70], false).0 == [0, 11]
    ensures DecodeUnit(Still(), [0xF7], false).0 == [11, -19]
  {
    hide DecodeSample, DecodeUnit;
    Steps();
    MonoByte(0x77);
    MonoByte(0x07);
    MonoByte(0x70);
    MonoByte(0xF7);
  }

  function NibbleAt(b: seq<byte>, k: nat): nibble
    requires k < 2 * |b|
  {
    if k % 2 == 0 then b[k / 2] % 16 else b[k / 2] / 16
  }

  lemma PairNibble(codes: seq<nibble>, k: nat)
    requires |codes| % 2 == 0 && k < |codes|
    ensures NibbleAt(Pair(codes), k) == codes[k]
  {
    SplitPair(codes);
    assert Split(Pair(codes))[k] == NibbleAt(Pair(codes), k);
  }

  /** Of the eight bytes of a stereo unit the first four are the left channel, whose samples come first in each
      frame. */
  lemma StereoUnit(st: State, s: seq<int16>, k: nat)
    requires |s| == 16 && k < 8
    ensures var b := EncodeUnit(st, s, true).0;
            && NibbleAt(b[..4], k) == EncodeSample(EncodeAt(st.left, Lane(s, 0), k), s[2 * k]).0
            && NibbleAt(b[4..], k) == EncodeSample(EncodeAt(st.right, Lane(s, 1), k), s[2 * k + 1]).0
  {
    hide EncodeSample, EncodeAt, Pair, NibbleAt;
    var l, r := Codes(st.left, Lane(s, 0)), Codes(st.right, Lane(s, 1));
    PairNibble(l, k);
    PairNibble(r, k);
    assert (Pair(l) + Pair(r))[..4] == Pair(l) && (Pair(l) + Pair(r))[4..] == Pair(r);
  }

  /** A header holds the sample, low byte first, the step and a zero, left channel first. */
  lemma ImaHeader()
    ensures Header(State(Channel(0x1234, 5), Channel(-2, 88)), true) == [0x34, 0x12, 5, 0, 0xFE, 0xFF, 88, 0]
    ensures Header(State(Channel(0x1234, 5), Channel(-2, 88)), false) == [0x34, 0x12, 5, 0]
  {
  }

  /** A header opens every block: 4 bytes of blocks of 5 in mono, 8 of blocks of 16 in stereo. */
  lemma ImaBlocks(st: State, s: seq<int16>)
    ensures |s| == 4 ==> |EncodeFrom(st, s, false, 5, 0).0| == 10
    ensures |s| == 4 ==> EncodeFrom(st, s, false, 5, 0).0[..4] == Header(st, false)
    ensures |s| == 32 ==> |EncodeFrom(st, s, true, 16, 0).0| == 32
    ensures |s| == 32 ==> EncodeFrom(st, s, true, 16, 0).0[..8] == Header(st, true)
  {
    hide EncodeUnit, Header, EncodeFrom;
    if |s| == 4 {
      BlockOnce(st, s, false, 5, 0);
      BlockOnce(EncodeUnit(st, s[..2], false).1, s[2..], false, 5, 5);
    } else if |s| == 32 {
      BlockOnce(st, s, true, 16, 0);
      BlockOnce(EncodeUnit(st, s[..16], true).1, s[16..], true, 16, 16);
    }
  }

  lemma BlockOnce(st: State, s: seq<int16>, stereo: bool, bs: nat, w: nat)
    requires bs > 0 && w % bs == 0 && Whole(s, stereo) && |s| >= UnitSamples(stereo)
    ensures var n := UnitSamples(stereo);
            var out := EncodeFrom(st, s, stereo, bs, w).0;
            && out == Header(st, stereo) + EncodeUnit(st, s[..n], stereo).0
                      + EncodeFrom(EncodeUnit(st, s[..n], stereo).1, AfterUnit(s, stereo), stereo, bs,
                                   w + HeaderBytes(stereo) + UnitBytes(stereo)).0
            && (|s| == n ==> |out| == HeaderBytes(stereo) + UnitBytes(stereo))
  {
    hide EncodeUnit, Header;
  }

  // ----- Microsoft ADPCM

  /** The high nibble of a data byte comes first, and belongs to the left channel of a stereo stream. Here the
      predictor is silence and the step 16. */
  lemma MsBytes()
    ensures var st := MsState(MsChannel(2, 16, 0, 0), MsChannel(2, 100, 0, 0));
            && MsDecodeByte(st, 0x12, false).0 == 16 && MsDecodeByte(st, 0x12, false).1 == 32
            && MsDecodeByte(st, 0x12, true).0 == 16 && MsDecodeByte(st, 0x12, true).1 == 200
            && MsDecodeByte(st, 0xF8, true).0 == -16 && MsDecodeByte(st, 0xF8, true).1 == -800
  {
  }

  /** A header holds the predictors, the steps, the newer and the older samples; the samples are the first frames
      of the block, the older one first. */
  lemma MsHeaders()
    ensures MsHeader(MsOpen(MsState(MsChannel(1, 0x102, 0, 0), MsChannel(0, 0, 0, 0)), [0x304, 0x506], false), false) ==
            [1, 2, 1, 6, 5, 4, 3]
    ensures var st := MsState(MsChannel(1, 0x102, 0, 0), MsChannel(2, 0x708, 0, 0));
            MsHeader(MsOpen(st, [0x304, 0x506, -2, 0x90A], true), true) ==
            [1, 2, 2, 1, 8, 7, 0xFE, 0xFF, 0xA, 9, 4, 3, 6, 5]
  {
  }

  /** Predictor 3 is a quarter of the way from the last sample to the one before it. */
  lemma MsPrediction()
    ensures MsDecodeSample(MsChannel(3, 16, 100, 0), 0).sample1 == 75
  {
  }

  // ----- planes

  lemma PlanarRows()
    ensures PlanarRle.EncodeRow(Repeat(0, 100)) == [0xF2, 0xF2, 0x06]
    ensures PlanarRle.EncodeRow([5, 5, 5, 5]) == [0x13, 5]
  {
    PlanarFormat.RunForm(100);
    PlanarFormat.RunForm(53);
    PlanarFormat.RunForm(6);
    PlanarFormat.RawForm([5, 5, 5, 5], 1, 3);
  }

  /** The first row is absolute, the others are relative. */
  lemma PlanarDelta(rows: seq<PlanarPlane.Row>)
    requires rows == [[10, 20, 30], [11, 19, 30]]
    ensures PlanarPlane.Delta(rows, 3) == [[10, 20, 30], [2, 1, 0]]
  {
    hide PlanarPlane.Delta, PlanarPlane.DeltaRow, PlanarPlane.ZigZag;
    PlanarFormat.ZigZagForm(1);
    PlanarFormat.ZigZagForm(-1);
    PlanarFormat.ZigZagForm(0);
    var second := PlanarPlane.Delta(rows, 3)[1];
    assert second == PlanarPlane.DeltaRow(rows[0], rows[1]);
    assert second[0] == 2 && second[1] == 1 && second[2] == 0;
    assert second == [2, 1, 0];
  }

  /** A plane of 64 equal bytes is a run of 60 and the last four. */
  lemma NscPlane()
    ensures NscRle.CompressPlane(Repeat(5, 64), 64) == [5, 5, 0x3A, 5, 5, 5, 5]
  {
    RunOfFives(0);
  }

  lemma {:induction false} RunOfFives(i: nat)
    requires i <= 59
    ensures NscRle.EncodeFrom(Repeat(5, 64), 64, i, i + 1, 0) == ([5, 5, 0x3A, 5, 5, 5, 5], 7)
    decreases 59 - i
  {
    if i < 59 {
      RunOfFives(i + 1);
    } else {
      assert Repeat(5, 64)[60..64] == [5, 5, 5, 5];
      assert NscRle.EncodeFrom(Repeat(5, 64), 64, 60, 1, 3) == ([5, 5, 5, 5], 7);
      assert NscRle.Item(5, 60) == [5, 5, 0x3A];
      assert [5, 5, 0x3A] + [5, 5, 5, 5] == [5, 5, 0x3A, 5, 5, 5, 5];
    }
  }
}
