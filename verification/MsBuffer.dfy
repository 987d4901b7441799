/** Whether an encoded Microsoft ADPCM stream fits the buffer the encoder asks for
    (libfreerdp/codec/dsp.c:603-613). */
module MsBuffer {
  import opened Basics
  import opened Bits
  import opened ImaAdpcm
  import opened ImaBuffer
  import opened MsAdpcm
  import opened MsStream

  // ----- block sizes

  /** Data bytes after a header, up to the next place that is a multiple of the block size. */
  function Room(bs: nat, stereo: bool): (n: nat)
    requires bs > 0
    ensures n > 0
  {
    if stereo then DataBytes(bs) else bs - 7 % bs
  }

  /** Bytes a header takes beyond the estimate of one for each of its samples. A data byte, with two
      samples, takes one byte less. */
  function Extra(stereo: bool): nat {
    if stereo then 10 else 5
  }

  /** The data bytes of a block outweigh its header in blocks of 7 and from 13 bytes on, and with two
      channels in blocks of 13, of 14 and from 25 bytes on. */
  lemma RoomSizes(bs: nat, stereo: bool)
    requires bs > 0
    ensures Room(bs, stereo) > Extra(stereo) <==>
            if stereo then bs == 13 || bs == 14 || bs >= 25 else bs == 7 || bs >= 13
  {
    if bs > 14 {
      DivModUnique(14, bs, 0, 14);
      DivModUnique(7, bs, 0, 7);
    } else if bs == 1 { } else if bs == 2 { } else if bs == 3 { } else if bs == 4 { } else if bs == 5 { }
    else if bs == 6 { } else if bs == 7 { } else if bs == 8 { } else if bs == 9 { } else if bs == 10 { }
    else if bs == 11 { } else if bs == 12 { } else if bs == 13 { } else { }
  }

  /** The data bytes between here and the next header. */
  lemma GapOn(w: nat, bs: nat)
    requires bs > 0 && w % bs != 0
    ensures Gap((w + 1) % bs, bs) == Gap(w % bs, bs) - 1
  {
    ModAdd(w, bs, 1);
  }

  lemma GapAfterHeader(w: nat, bs: nat, stereo: bool)
    requires bs > 0 && w % bs == 0
    ensures Gap((w + MsHeaderBytes(stereo) + 1) % bs, bs) == Room(bs, stereo) - 1
  {
    var h := MsHeaderBytes(stereo);
    var q, r := w / bs + h / bs, h % bs;
    Distribute(w / bs, h / bs, bs);
    if r + 1 < bs {
      DivModUnique(w + h + 1, bs, q, r + 1);
    } else {
      Distribute(q, 1, bs);
      DivModUnique(w + h + 1, bs, q + 1, 0);
    }
  }

  // ----- streams that fit

  /** What a stream may take beyond its samples, g data bytes in front of a header. */
  function Slack(g: int, stereo: bool): int {
    if stereo then if g < 11 then 264 - 24 * g else 0
    else if g < 6 then 72 - 12 * g else 0
  }

  /** Each data byte saves what a sixth or an eleventh of a header costs. */
  lemma {:induction false} StreamLength(st: MsState, s: seq<int16>, stereo: bool, bs: nat, w: nat)
    requires bs > 0 && StateOK(st, stereo) && Room(bs, stereo) > Extra(stereo)
    requires MsEncodeFrom(st, s, stereo, bs, w).Some?
    ensures var n := |MsEncodeFrom(st, s, stereo, bs, w).value.bytes|;
            if stereo then 26 * n <= 25 * |s| + Slack(Gap(w % bs, bs), true)
            else 14 * n <= 13 * |s| + Slack(Gap(w % bs, bs), false)
    decreases |s|
  {
    hide MsEncodeFrom, MsEncodeByte, MsEnterBlock, StateOK, Room, Heard;
    if s == [] {
      NothingEncoded(st, stereo, bs, w);
    } else {
      MsEncodeNext(st, s, stereo, bs, w);
      var (header, a1, s1) := MsEnterBlock(st, s, stereo, bs, w).value;
      TakenByHeader(st, s, stereo, bs, w);
      if w % bs == 0 { GapAfterHeader(w, bs, stereo); } else { GapOn(w, bs); }
      StreamLength(MsEncodeByte(a1, s1[0], s1[1], stereo).1, s1[2..], stereo, bs, w + |header| + 1);
    }
  }

  lemma TakenByHeader(st: MsState, s: seq<int16>, stereo: bool, bs: nat, w: nat)
    requires bs > 0 && MsEnterBlock(st, s, stereo, bs, w).Some?
    ensures var (header, a1, s1) := MsEnterBlock(st, s, stereo, bs, w).value;
            |s1| == |s| - if w % bs == 0 then MsHeaderSamples(stereo) else 0
  {
  }

  // ----- streams that do not

  /** Headers in a stream of n data bytes, w bytes into the output. */
  function HeaderCount(n: nat, stereo: bool, bs: nat, w: nat): nat
    requires bs > 0
  {
    if n == 0 then 0
    else if w % bs == 0 then 1 + HeaderCount(n - 1, stereo, bs, w + MsHeaderBytes(stereo) + 1)
    else HeaderCount(n - 1, stereo, bs, w + 1)
  }

  /** The exact length of a stream of n data bytes. */
  lemma {:induction false} StreamBytes(st: MsState, s: seq<int16>, n: nat, stereo: bool, bs: nat, w: nat)
    requires bs > 0 && StateOK(st, stereo) && |s| == 2 * n + MsHeaderSamples(stereo) * HeaderCount(n, stereo, bs, w)
    ensures var r := MsEncodeFrom(st, s, stereo, bs, w);
            r.Some? && |r.value.bytes| == n + MsHeaderBytes(stereo) * HeaderCount(n, stereo, bs, w)
    decreases n
  {
    hide MsEncodeFrom, MsEncodeByte, StateOK, MsHeader, Heard;
    if n == 0 {
      NothingEncoded(st, stereo, bs, w);
    } else {
      var (header, a1, s1) := MsEnterBlock(st, s, stereo, bs, w).value;
      OpenKeeps(st, s, stereo, bs, w);
      ByteRoundTrip(a1, a1, s1[0], s1[1], stereo);
      StreamBytes(MsEncodeByte(a1, s1[0], s1[1], stereo).1, s1[2..], n - 1, stereo, bs, w + |header| + 1);
      EncodeOneMore(st, s, stereo, bs, w);
      MsEncodeNext(st, s, stereo, bs, w);
    }
  }

  /** Where a header costs at least what the data bytes after it save, headers outweigh data bytes. */
  lemma {:induction false} HeavyHeaders(n: nat, stereo: bool, bs: nat, w: nat)
    requires bs > 0 && Room(bs, stereo) <= Extra(stereo)
    ensures Extra(stereo) * HeaderCount(n, stereo, bs, w) >= n - Gap(w % bs, bs)
    decreases n
  {
    hide Room;
    if n > 0 {
      if w % bs == 0 {
        GapAfterHeader(w, bs, stereo);
        HeavyHeaders(n - 1, stereo, bs, w + MsHeaderBytes(stereo) + 1);
      } else {
        GapOn(w, bs);
        HeavyHeaders(n - 1, stereo, bs, w + 1);
      }
    }
  }

  /** The samples of 1001 data bytes and of their headers. */
  function Overflowing(stereo: bool, bs: nat): (s: seq<int16>)
    requires bs > 0
  {
    seq(2002 + MsHeaderSamples(stereo) * HeaderCount(1001, stereo, bs, 0), _ => 0)
  }

  // ----- a call that grows the buffer

  /** Data bytes of silence in one long mono block can always be decoded. */
  lemma {:induction false} HushDecoded(st: MsState, k: nat, bs: nat)
    requires k < bs && (st.left.delta == 0 || st.left.delta == 16)
    ensures var r := MsDecodeFrom(st, Repeat(0, k), false, bs);
            r.Some? && r.value.1.right == st.right && (r.value.1.left.delta == 0 || r.value.1.left.delta == 16)
    decreases k
  {
    hide MsDecodeFrom, MsDecodeByte, ByteInInt32;
    if k == 0 {
      NothingDecoded(st, false, bs);
    } else {
      DivModUnique(k, bs, 0, k);
      assert Repeat(0, k) == [0] + Repeat(0, k - 1);
      assert MsResume(st, Repeat(0, k), false, bs) == Some(([], st, [0] + Repeat(0, k - 1)));
      HushByte(st);
      HushDecoded(MsDecodeByte(st, 0, false).2, k - 1, bs);
      DecodeOne(st, Repeat(0, k), [], st, 0, Repeat(0, k - 1), bs);
    }
  }

  lemma HushByte(st: MsState)
    requires st.left.delta == 0 || st.left.delta == 16
    ensures var next := MsDecodeByte(st, 0, false).2; next.right == st.right && next.left.delta == 16
    ensures ByteInInt32(st, 0, false)
  {
    hide Predict;
    assert NextDelta(0, 0) == 16 && NextDelta(16, 0) == 16;
  }

  /** The bytes to decode so that the buffer has grown to the samples of that stream, or up to three more. */
  function Earlier(stereo: bool, bs: nat): (k: nat)
    requires bs > 0
    ensures |Overflowing(stereo, bs)| <= 4 * k + 1024 <= |Overflowing(stereo, bs)| + 3
  {
    (|Overflowing(stereo, bs)| - 1021) / 4
  }

  /** Two calls on a new context: one decodes that many bytes of silence, which grows the buffer to four times
      as much and 1024 bytes more, and one encodes the stream, which asks for no more and needs more. */
  lemma MsEstimateFails(stereo: bool, bs: nat)
    requires bs > 0 && Room(bs, stereo) <= Extra(stereo)
    ensures var s, k := Overflowing(stereo, bs), Earlier(stereo, bs);
            var d := MsDecodeFrom(FreshState(), Repeat(0, k), false, k + 1);
            && d.Some? && StateOK(Started(d.value.1), stereo)
            && var r := MsEncodeFrom(Started(d.value.1), s, stereo, bs, 0);
               r.Some? && |r.value.bytes| > Grown(Grown(0, 4 * k), |s|)
  {
    hide MsEncodeFrom, MsDecodeFrom, HeaderCount, Room, Earlier;
    var s, k := Overflowing(stereo, bs), Earlier(stereo, bs);
    HushDecoded(FreshState(), k, k + 1);
    var st := Started(MsDecodeFrom(FreshState(), Repeat(0, k), false, k + 1).value.1);
    StreamBytes(st, s, 1001, stereo, bs, 0);
    DivModUnique(0, bs, 0, 0);
    HeavyHeaders(1001, stereo, bs, 0);
  }

  // ----- the estimate of half the input

  /** Half the size of the input, which is the number of its samples, is estimate enough: no stream outgrows
      the buffer. */
  ghost predicate MsEstimateSuffices(stereo: bool, bs: nat)
    requires bs > 0
  {
    forall st: MsState, s: seq<int16>, capacity: nat |
      StateOK(st, stereo) && MsEncodeFrom(st, s, stereo, bs, 0).Some? && Admissible(capacity) ::
      |MsEncodeFrom(st, s, stereo, bs, 0).value.bytes| <= Grown(capacity, |s|)
  }

  /** The estimate is enough for every stream exactly when the data bytes of a block outweigh its header. */
  lemma MsEstimateSufficesIff(stereo: bool, bs: nat)
    requires bs > 0
    ensures MsEstimateSuffices(stereo, bs) <==>
            if stereo then bs == 13 || bs == 14 || bs >= 25 else bs == 7 || bs >= 13
  {
    hide MsEncodeFrom, MsDecodeFrom, Room, Overflowing, StateOK;
    RoomSizes(bs, stereo);
    if Room(bs, stereo) > Extra(stereo) {
      forall st: MsState, s: seq<int16>, capacity: nat |
        StateOK(st, stereo) && MsEncodeFrom(st, s, stereo, bs, 0).Some? && Admissible(capacity)
        ensures |MsEncodeFrom(st, s, stereo, bs, 0).value.bytes| <= Grown(capacity, |s|)
      {
        NothingEncoded(st, stereo, bs, 0);
        DivModUnique(0, bs, 0, 0);
        StreamLength(st, s, stereo, bs, 0);
      }
    } else {
      MsEstimateFails(stereo, bs);
      var s, k := Overflowing(stereo, bs), Earlier(stereo, bs);
      var st := Started(MsDecodeFrom(FreshState(), Repeat(0, k), false, k + 1).value.1);
      assert |MsEncodeFrom(st, s, stereo, bs, 0).value.bytes| > Grown(Grown(0, 4 * k), |s|);
    }
  }
}
