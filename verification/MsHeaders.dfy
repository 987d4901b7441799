/** Which Microsoft ADPCM streams keep their steps in 16 bits (libfreerdp/codec/dsp.c): exactly those with
    tame predictors are safe, and any other predictor loses one. */
module MsHeaders {
  import opened Basics
  import opened Bits
  import opened ImaAdpcm
  import opened MsAdpcm
  import opened MsStream

  // ----- a step that outgrows its header

  /** A channel about to encode -32768 with a prediction as far away as its predictor allows. */
  function Steep(p: coeffSet): MsChannel {
    MsChannel(p, 13000, 32767, -32768)
  }

  /** Every predictor that is not tame turns the step 13000 into 39000 with one sample. */
  lemma SteepSample(p: coeffSet)
    requires !Tame(p)
    ensures MsEncodeSample(Steep(p), -32768).1.delta == 39000
  {
    hide ErrorSteps, CMod;
    assert Adaptation(8) == 768 && NextDelta(13000, 8) == 39000;
    assert Predict(Steep(p)) == if p == 1 then 98302 else if p == 5 then 85502 else 79870;
    NegativeRest(-32768 - Predict(Steep(p)), 13000);
  }

  /** One more sample cannot make it fit again. */
  lemma StillWide(c: MsChannel, sample: int16)
    requires c.delta == 39000
    ensures MsEncodeSample(c, sample).1.delta > 32767
  {
    hide ErrorSteps, Predict;
  }

  /** The frames that start a block with the steep history, and the ones after it. */
  function SteepBlock(stereo: bool): seq<int16> {
    if stereo then [-32768, -32768, 32767, 32767, -32768, -32768] else [-32768, 32767, -32768, 0]
  }

  function NextBlock(stereo: bool): seq<int16> {
    if stereo then [0, 0, 0, 0, 0, 0] else [0, 0, 0, 0]
  }

  /** Blocks of a header and one byte, so that the second header follows at once. */
  function ShortBlock(stereo: bool): nat {
    if stereo then 15 else 8
  }

  /** A wide step is what the next header has to hold. */
  lemma SteepByte(a: MsState, stereo: bool)
    requires StateOK(a, stereo)
    requires (a.left.delta == 13000 && !Tame(a.left.predictor))
          || (stereo && a.right.delta == 13000 && !Tame(a.right.predictor))
    ensures var s := SteepBlock(stereo);
            var st := MsOpen(a, s[..MsHeaderSamples(stereo)], stereo);
            !HeaderFits(MsEncodeByte(st, s[MsHeaderSamples(stereo)], s[MsHeaderSamples(stereo) + 1], stereo).1, stereo)
  {
    hide MsEncodeSample, DeltaOK;
    var s := SteepBlock(stereo);
    var st := MsOpen(a, s[..MsHeaderSamples(stereo)], stereo);
    if a.left.delta == 13000 && !Tame(a.left.predictor) {
      assert st.left == Steep(a.left.predictor);
      SteepSample(a.left.predictor);
      if !stereo { StillWide(MsEncodeSample(st.left, -32768).1, 0); }
    } else {
      assert st.right == Steep(a.right.predictor);
      SteepSample(a.right.predictor);
    }
  }

  /** So a stream of two short blocks does not fit. */
  lemma LosingStream(a: MsState, stereo: bool)
    requires StateOK(a, stereo)
    requires (a.left.delta == 13000 && !Tame(a.left.predictor))
          || (stereo && a.right.delta == 13000 && !Tame(a.right.predictor))
    ensures var r := MsEncodeFrom(a, SteepBlock(stereo) + NextBlock(stereo), stereo, ShortBlock(stereo), 0);
            r.Some? && !r.value.fits
  {
    hide MsEncodeFrom, MsEncodeByte, Heard, MsEnterBlock, DeltaOK, SteepBlock, NextBlock;
    var s, bs := SteepBlock(stereo) + NextBlock(stereo), ShortBlock(stereo);
    SteepEntered(a, stereo);
    var (header, st, s1) := MsEnterBlock(a, s, stereo, bs, 0).value;
    SteepByte(a, stereo);
    ByteRoundTrip(st, st, s1[0], s1[1], stereo);
    LastBlock(MsEncodeByte(st, s1[0], s1[1], stereo).1, stereo, bs);
    EncodeOneMore(a, s, stereo, bs, 0);
    MsEncodeNext(a, s, stereo, bs, 0);
  }

  lemma SteepEntered(a: MsState, stereo: bool)
    requires StateOK(a, stereo)
    ensures var n := MsHeaderSamples(stereo);
            var s := SteepBlock(stereo) + NextBlock(stereo);
            var r := MsEnterBlock(a, s, stereo, ShortBlock(stereo), 0);
            && s != [] && r.Some? && |r.value.0| == ShortBlock(stereo) - 1
            && r.value.1 == MsOpen(a, SteepBlock(stereo)[..n], stereo) && StateOK(r.value.1, stereo)
            && |r.value.2| > 2 && r.value.2[2..] == NextBlock(stereo)
            && r.value.2[0] == SteepBlock(stereo)[n] && r.value.2[1] == SteepBlock(stereo)[n + 1]
  {
    hide MsHeader, DeltaOK;
    SteepParts(stereo);
    OpenKeeps(a, SteepBlock(stereo) + NextBlock(stereo), stereo, ShortBlock(stereo), 0);
  }

  lemma SteepParts(stereo: bool)
    ensures var s, n := SteepBlock(stereo) + NextBlock(stereo), MsHeaderSamples(stereo);
            && |s| > n + 2 && s[..n] == SteepBlock(stereo)[..n] && s[n..][2..] == NextBlock(stereo)
            && s[n..][0] == SteepBlock(stereo)[n] && s[n..][1] == SteepBlock(stereo)[n + 1]
  {
  }

  lemma LastBlock(a: MsState, stereo: bool, bs: nat)
    requires bs == ShortBlock(stereo) && StateOK(a, stereo) && !HeaderFits(a, stereo)
    ensures MsEncodeFrom(a, NextBlock(stereo), stereo, bs, bs).Some?
    ensures !MsEncodeFrom(a, NextBlock(stereo), stereo, bs, bs).value.fits
  {
    hide MsEncodeFrom, MsEncodeByte, Heard, MsHeader, DeltaOK;
    var s := NextBlock(stereo);
    OpenKeeps(a, s, stereo, bs, bs);
    var (header, st, s1) := MsEnterBlock(a, s, stereo, bs, bs).value;
    ByteRoundTrip(st, st, s1[0], s1[1], stereo);
    NothingEncoded(MsEncodeByte(st, s1[0], s1[1], stereo).1, stereo, bs, bs + |header| + 1);
    EncodeOneMore(a, s, stereo, bs, bs);
    MsEncodeNext(a, s, stereo, bs, bs);
  }

  // ----- exactly which predictors are safe

  /** Every stream of a context with these predictors whose steps fit a header now keeps them fitting. */
  ghost predicate AlwaysFits(left: coeffSet, right: coeffSet, stereo: bool) {
    forall a: MsState, s: seq<int16>, bs: nat |
      bs > 0 && StateOK(a, stereo) && HeaderFits(a, stereo) && a.left.predictor == left && a.right.predictor == right
      && MsEncodeFrom(a, s, stereo, bs, 0).Some? ::
      MsEncodeFrom(a, s, stereo, bs, 0).value.fits
  }

  /** Every header of every stream holds its steps exactly when the predictors in use are tame. */
  lemma FitsIffTame(left: coeffSet, right: coeffSet, stereo: bool)
    ensures AlwaysFits(left, right, stereo) <==> Tame(left) && (stereo ==> Tame(right))
  {
    hide MsEncodeFrom, Tame;
    if Tame(left) && (stereo ==> Tame(right)) {
      forall a: MsState, s: seq<int16>, bs: nat |
        bs > 0 && StateOK(a, stereo) && HeaderFits(a, stereo) && a.left.predictor == left && a.right.predictor == right
        && MsEncodeFrom(a, s, stereo, bs, 0).Some?
        ensures MsEncodeFrom(a, s, stereo, bs, 0).value.fits
      {
        TameFits(a, s, stereo, bs, 0);
      }
    } else {
      var a := MsState(MsChannel(left, 13000, 0, 0), MsChannel(right, 13000, 0, 0));
      LosingStream(a, stereo);
      assert StateOK(a, stereo) && HeaderFits(a, stereo);
    }
  }

  // ----- and what a lost step does

  /** A mono stream that a context can have decoded: predictor 1, step 16000 and silence. */
  function Silence(): seq<byte> {
    [1, 128, 62, 0, 0, 0, 0, 0]
  }

  /** The context that has decoded it. */
  function Listener(): MsState {
    MsState(MsChannel(1, 12915, 0, 0), MsChannel(0, 0, 0, 0))
  }

  lemma SilenceHeard()
    ensures MsDecodeFrom(FreshState(), Silence(), false, 8) == Some(([0, 0, 0, 0], Listener()))
  {
    hide MsDecodeFrom, MsReadHeader, MsDecodeSample, Int16At;
    var b, x := FreshState(), Silence();
    var st := MsState(MsChannel(1, 16000, 0, 0), b.right);
    WideWord();
    ReadQuiet(b, x[..7], 16000);
    assert x[7..] == [0] + [];
    assert MsResume(b, x, false, 8) == Some(([0, 0], st, [0] + []));
    QuietSample(16000, 14375);
    QuietSample(14375, 12915);
    assert MsDecodeByte(st, 0, false) == (0, 0, Listener());
    DecodeOne(b, x, [0, 0], st, 0, [], 8);
    NothingDecoded(Listener(), false, 8);
    assert [0, 0] + [0, 0] + [] == [0, 0, 0, 0];
  }

  lemma QuietSample(delta: int, next: int)
    requires delta >= 18 && next == delta * 230 / 256
    ensures MsDecodeSample(MsChannel(1, delta, 0, 0), 0) == MsChannel(1, next, 0, 0)
  {
    assert Predict(MsChannel(1, delta, 0, 0)) == 0;
  }

  /** The three samples of its next stream that matter. */
  lemma ThreeSamples()
    ensures MsEncodeSample(MsChannel(1, 12915, 32767, -32768), -32768) == (8, MsChannel(1, 38745, -5018, 32767))
    ensures MsEncodeSample(MsChannel(1, 38745, -5018, 32767), 0) == (1, MsChannel(1, 34809, -4058, -5018))
    ensures MsEncodeSample(MsChannel(1, 34809, 0, 0), 32767).0 == 1
    ensures MsEncodeSample(MsChannel(1, 34809, 0, 0), 32767).1.sample1 == 32767
  {
    assert Adaptation(8) == 768 && Adaptation(1) == 230;
    assert Predict(MsChannel(1, 12915, 32767, -32768)) == 98302 && ErrorSteps(-131070, 12915) == -8;
    assert Predict(MsChannel(1, 38745, -5018, 32767)) == -42803 && ErrorSteps(42803, 38745) == 1;
    assert Predict(MsChannel(1, 34809, 0, 0)) == 0 && ErrorSteps(32767, 34809) == 1;
  }

  /** Where its first block leads. */
  function Widened(): MsState {
    MsState(MsChannel(1, 34809, -4058, -5018), MsChannel(0, 0, 0, 0))
  }

  function LoudBlock(): seq<int16> {
    [0, 0, 32767, 32767]
  }

  lemma FirstBlock()
    ensures var st := MsOpen(Listener(), SteepBlock(false)[..2], false);
            MsEncodeByte(st, -32768, 0, false).1 == Widened()
  {
    hide MsEncodeSample;
    ThreeSamples();
  }

  /** The second block: its header reads as step -30727, so its first sample, heard as 32767, comes back as
      -30727. */
  lemma SecondBlock(b: MsState)
    ensures MsEncodeFrom(Widened(), LoudBlock(), false, 8, 8).Some?
    ensures var out := MsEncodeFrom(Widened(), LoudBlock(), false, 8, 8).value;
            var r := MsDecodeFrom(b, out.bytes, false, 8);
            && |out.bytes| == 8 && |out.heard| == 4 && out.heard[2] == 32767
            && r.Some? && |r.value.0| == 4 && r.value.0[2] == -30727
  {
    hide MsEncodeFrom, MsDecodeFrom, MsEncodeSample, MsDecodeSample, MsHeader, DeltaOK, MsReadHeader;
    var a, s := Widened(), LoudBlock();
    WideHeader(b);
    ThreeSamples();
    var st := MsState(MsChannel(1, 34809, 0, 0), a.right);
    InRange();
    OpenKeeps(a, s, false, 8, 8);
    assert s[..2] == [0, 0] && s[2..] == [32767, 32767] && s[2..][2..] == [];
    assert MsOpen(a, s[..2], false) == st;
    ByteRoundTrip(st, st, 32767, 32767, false);
    var (code, last) := MsEncodeByte(st, 32767, 32767, false);
    NothingEncoded(last, false, 8, 16);
    EncodeOneMore(a, s, false, 8, 8);
    MsEncodeNext(a, s, false, 8, 8);
    var x := MsHeader(st, false) + [code];
    assert MsEncodeFrom(a, s, false, 8, 8).value.bytes == x;
    assert x[..7] == MsHeader(st, false) && x[7..] == [code] + [];
    var st1 := MsState(MsChannel(1, -30727, 0, 0), b.right);
    SmallSteps(st1, code);
    DecodeOne(b, x, [0, 0], st1, code, [], 8);
    NothingDecoded(MsDecodeByte(st1, code, false).2, false, 8);
    WrongSample();
  }

  /** A negative step stays far from 32 bits, and becomes 16. */
  lemma SmallSteps(st: MsState, code: byte)
    requires st.left.delta == -30727
    ensures ByteInInt32(st, code, false)
  {
    hide Predict;
    var k := Adaptation(code / 16);
    MulMono(k, 768, 30727);
    assert CDiv(st.left.delta * k, 256) < 16;
  }

  lemma InRange()
    ensures DeltaOK(MsChannel(1, 34809, 0, 0)) && DeltaOK(Widened().left) && DeltaOK(Listener().left)
  {
  }

  lemma WideHeader(b: MsState)
    ensures var st := MsState(MsChannel(1, 34809, 0, 0), MsChannel(0, 0, 0, 0));
            MsReadHeader(b, MsHeader(st, false), false) == Some(([0, 0], MsState(MsChannel(1, -30727, 0, 0), b.right)))
  {
    hide MsReadHeader, Int16At;
    var st := MsState(MsChannel(1, 34809, 0, 0), MsChannel(0, 0, 0, 0));
    assert TwoBytes(34809) == [249, 135] && TwoBytes(0) == [0, 0];
    assert MsHeader(st, false) == [1, 249, 135, 0, 0, 0, 0];
    WideWord();
    ReadQuiet(b, MsHeader(st, false), -30727);
  }

  /** A mono header of predictor 1 and silent frames. */
  lemma ReadQuiet(b: MsState, h: seq<byte>, step: int)
    requires |h| == 7 && h[0] == 1 && Int16At(h[1], h[2]) == step && h[3] == h[4] == h[5] == h[6] == 0
    ensures MsReadHeader(b, h, false) == Some(([0, 0], MsState(MsChannel(1, step, 0, 0), b.right)))
  {
    hide Int16At;
    WideWord();
  }

  lemma WideWord()
    ensures Int16At(249, 135) == -30727 && Int16At(128, 62) == 16000 && Int16At(0, 0) == 0
  {
  }

  lemma WrongSample()
    ensures MsDecodeSample(MsChannel(1, -30727, 0, 0), 1).sample1 == -30727
  {
    hide NextDelta;
    assert Predict(MsChannel(1, -30727, 0, 0)) == 0;
  }

  /** A context that has decoded eight bytes of silence with predictor 1 then encodes two blocks. Every
      decoder accepts them, and gets the third sample of the second block wrong. */
  lemma HeaderCanLose(b: MsState)
    ensures MsDecodeFrom(FreshState(), Silence(), false, 8).Some?
    ensures var a := MsDecodeFrom(FreshState(), Silence(), false, 8).value.1;
            var s := SteepBlock(false) + LoudBlock();
            && StateOK(a, false) && HeaderFits(a, false) && MsEncodeFrom(a, s, false, 8, 0).Some?
            && var out := MsEncodeFrom(a, s, false, 8, 0).value;
               var r := MsDecodeFrom(b, out.bytes, false, 8);
               && |out.bytes| % 8 == 0 && r.Some? && |r.value.0| == |out.heard| == 8
               && r.value.0[6] == -30727 && out.heard[6] == 32767
  {
    hide MsEncodeFrom, MsDecodeFrom, MsEncodeByte, MsDecodeByte, MsHeader, Heard, DeltaOK;
    SilenceHeard();
    InRange();
    var a, s := Listener(), SteepBlock(false) + LoudBlock();
    assert s[..2] == SteepBlock(false)[..2] && s[2..][2..] == LoudBlock() && s[2..][0] == -32768 && s[2..][1] == 0;
    FirstBlock();
    SecondBlock(b);
    OpenKeeps(a, s, false, 8, 0);
    var st := MsOpen(a, s[..2], false);
    EncodeOneMore(a, s, false, 8, 0);
    MsEncodeNext(a, s, false, 8, 0);
    var (code, _) := MsEncodeByte(st, -32768, 0, false);
    var rest := MsEncodeFrom(Widened(), LoudBlock(), false, 8, 8).value;
    var out := MsEncodeFrom(a, s, false, 8, 0).value;
    assert out.bytes == MsHeader(st, false) + ([code] + rest.bytes);
    MsEntered(a, b, s, [code] + rest.bytes, false, 8, 0);
    var b1 := MsResume(b, out.bytes, false, 8).value.1;
    ByteRoundTrip(st, b1, -32768, 0, false);
    var next := MsDecodeByte(b1, code, false).2;
    SecondBlock(next);
    DecodeOne(b, out.bytes, s[..2], b1, code, rest.bytes, 8);
  }
}
