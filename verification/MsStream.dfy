/** Whole Microsoft ADPCM streams (libfreerdp/codec/dsp.c): when the decoder gives back what the encoder
    reconstructs, and exactly for which block sizes and predictors it does. */
module MsStream {
  import opened Basics
  import opened Bits
  import opened ImaAdpcm
  import opened MsAdpcm

  // ----- one turn of the loops

  /** One turn of the decoder's loop on a stereo stream. */
  lemma DecodeTwo(b: MsState, bytes: seq<byte>, head: seq<int16>, b1: MsState, c1: byte, c2: byte, rest: seq<byte>,
                  bs: nat)
    requires bs > 0 && bytes != [] && MsResume(b, bytes, true, bs) == Some((head, b1, [c1] + ([c2] + rest)))
    requires ByteInInt32(b1, c1, true) && ByteInInt32(MsDecodeByte(b1, c1, true).2, c2, true)
    ensures var x := MsDecodeByte(b1, c1, true);
            var y := MsDecodeByte(x.2, c2, true);
            MsDecodeFrom(b, bytes, true, bs) == After(head + [x.0, x.1] + [y.0, y.1], MsDecodeFrom(y.2, rest, true, bs))
  {
    hide MsResume, MsDecodeByte, ByteInInt32;
    var t := [c1] + ([c2] + rest);
    assert t[0] == c1 && t[1] == c2 && t[2..] == rest;
  }

  /** Unless it overflows. */
  lemma DecodeOverflows(b: MsState, bytes: seq<byte>, head: seq<int16>, b1: MsState, c1: byte, c2: byte,
                        rest: seq<byte>, bs: nat)
    requires bs > 0 && bytes != [] && MsResume(b, bytes, true, bs) == Some((head, b1, [c1] + ([c2] + rest)))
    requires !(ByteInInt32(b1, c1, true) && ByteInInt32(MsDecodeByte(b1, c1, true).2, c2, true))
    ensures MsDecodeFrom(b, bytes, true, bs) == None
  {
    hide MsResume, MsDecodeByte, ByteInInt32;
    var t := [c1] + ([c2] + rest);
    assert t[0] == c1 && t[1] == c2;
  }

  /** One turn of the decoder's loop on a mono stream. */
  lemma DecodeOne(b: MsState, bytes: seq<byte>, head: seq<int16>, b1: MsState, c: byte, rest: seq<byte>, bs: nat)
    requires bs > 0 && bytes != [] && MsResume(b, bytes, false, bs) == Some((head, b1, [c] + rest))
    requires ByteInInt32(b1, c, false)
    ensures var x := MsDecodeByte(b1, c, false);
            MsDecodeFrom(b, bytes, false, bs) == After(head + [x.0, x.1], MsDecodeFrom(x.2, rest, false, bs))
  {
    hide MsResume, MsDecodeByte, ByteInInt32;
    assert ([c] + rest)[1..] == rest;
  }

  lemma NothingDecoded(st: MsState, stereo: bool, bs: nat)
    requires bs > 0
    ensures MsDecodeFrom(st, [], stereo, bs) == Some(([], st))
  {
  }

  lemma NothingEncoded(st: MsState, stereo: bool, bs: nat, w: nat)
    requires bs > 0 && StateOK(st, stereo)
    ensures MsEncodeFrom(st, [], stereo, bs, w) == Some(Encoding([], [], st, true))
  {
  }

  /** One turn of the encoder's loop, forwards. */
  lemma EncodeOneMore(a: MsState, s: seq<int16>, stereo: bool, bs: nat, w: nat)
    requires bs > 0 && StateOK(a, stereo) && s != [] && MsEnterBlock(a, s, stereo, bs, w).Some?
    requires var (header, a1, s1) := MsEnterBlock(a, s, stereo, bs, w).value;
             && |s1| >= 2 && StateOK(a1, stereo)
             && var a2 := MsEncodeByte(a1, s1[0], s1[1], stereo).1;
                StateOK(a2, stereo) && MsEncodeFrom(a2, s1[2..], stereo, bs, w + |header| + 1).Some?
    ensures MsEncodeFrom(a, s, stereo, bs, w).Some?
  {
    hide MsEncodeByte, MsEnterBlock, Heard, MsHeader, StateOK;
  }

  // ----- block sizes

  /** Data bytes after a stereo header, up to the next place that is a multiple of the block size. */
  function DataBytes(bs: nat): (n: nat)
    requires bs > 0
    ensures 1 <= n <= bs
  {
    bs - 14 % bs
  }

  /** Which block sizes have an even number of them. */
  lemma EvenDataBytes(bs: nat)
    requires bs > 0
    ensures DataBytes(bs) % 2 == 0 <==> bs % 2 == 0 || bs == 9 || bs == 11 || bs == 13
  {
    if bs > 14 {
      DivModUnique(14, bs, 0, 14);
    } else if bs == 1 { } else if bs == 2 { } else if bs == 3 { } else if bs == 4 { } else if bs == 5 { }
    else if bs == 6 { } else if bs == 7 { } else if bs == 8 { } else if bs == 9 { } else if bs == 10 { }
    else if bs == 11 { } else if bs == 12 { } else if bs == 13 { } else { }
  }

  /** The decoder, which takes two data bytes at a time, meets the next header. */
  predicate InStep(bs: nat, w: nat)
    requires bs > 0
  {
    w % bs == 0 || (bs - w % bs) % 2 == 0
  }

  /** Two data bytes on, with a header before them where one is due, it is still in step, and there is no
      header between the two. */
  lemma TwoOn(bs: nat, w: nat)
    requires bs > 0 && DataBytes(bs) % 2 == 0 && InStep(bs, w)
    ensures var h := if w % bs == 0 then 14 else 0;
            (w + h + 1) % bs != 0 && InStep(bs, w + h + 2)
  {
    var v := if w % bs == 0 then w + 14 else w;
    if w % bs == 0 { Shifted(w, 14, bs); }
    EvenGap(bs, v % bs);
    ModAdd(v, bs, 1);
    StaysEven(bs, v);
  }

  lemma EvenGap(bs: nat, r: nat)
    requires r < bs && (bs - r) % 2 == 0
    ensures r + 2 <= bs && (bs - (r + 2)) % 2 == 0
  {
  }

  lemma StaysEven(bs: nat, v: nat)
    requires bs > 0 && v % bs + 2 <= bs && (bs - (v % bs + 2)) % 2 == 0
    ensures InStep(bs, v + 2)
  {
    ModAdd(v, bs, 2);
  }

  lemma Shifted(w: nat, n: nat, bs: nat)
    requires bs > 0 && w % bs == 0
    ensures (w + n) % bs == n % bs
  {
    assert w + n == bs * (w / bs) + (bs * (n / bs) + n % bs);
    assert bs * (w / bs + n / bs) == bs * (w / bs) + bs * (n / bs);
    DivModUnique(w + n, bs, w / bs + n / bs, n % bs);
  }

  // ----- streams that read back

  /** Decoding gives what the encoder heard, and the channels agree again at the end. */
  ghost predicate ReadsBack(a: MsState, b: MsState, s: seq<int16>, stereo: bool, bs: nat, w: nat)
    requires bs > 0 && StateOK(a, stereo) && MsEncodeFrom(a, s, stereo, bs, w).Some?
  {
    var out := MsEncodeFrom(a, s, stereo, bs, w).value;
    var r := MsDecodeFrom(b, out.bytes, stereo, bs);
    && r.Some? && r.value.0 == out.heard && (s != [] || MsAgree(a, b, stereo) ==> MsAgree(out.last, r.value.1, stereo))
  }

  lemma {:induction false} MonoRoundTrip(a: MsState, b: MsState, s: seq<int16>, bs: nat, w: nat)
    requires bs > 0 && StateOK(a, false) && MsEncodeFrom(a, s, false, bs, w).Some?
        && MsEncodeFrom(a, s, false, bs, w).value.fits
    requires (w + |MsEncodeFrom(a, s, false, bs, w).value.bytes|) % bs == 0
    requires w % bs != 0 ==> MsAgree(a, b, false)
    ensures ReadsBack(a, b, s, false, bs, w)
    decreases |s|
  {
    hide MsEncodeFrom, MsDecodeFrom, MsEnterBlock, MsResume, MsEncodeByte, MsDecodeByte, Heard, StateOK;
    hide ByteInInt32;
    if s == [] {
      NothingEncoded(a, false, bs, w);
      NothingDecoded(b, false, bs);
    } else {
      var out := MsEncodeFrom(a, s, false, bs, w).value;
      MsEncodeNext(a, s, false, bs, w);
      var (header, a1, s1) := MsEnterBlock(a, s, false, bs, w).value;
      var (code, a2) := MsEncodeByte(a1, s1[0], s1[1], false);
      var w2 := w + |header| + 1;
      var rest := MsEncodeFrom(a2, s1[2..], false, bs, w2).value;
      assert out.bytes == header + ([code] + rest.bytes);
      MsEntered(a, b, s, [code] + rest.bytes, false, bs, w);
      var b1 := MsResume(b, out.bytes, false, bs).value.1;
      ByteRoundTrip(a1, b1, s1[0], s1[1], false);
      MonoRoundTrip(a2, MsDecodeByte(b1, code, false).2, s1[2..], bs, w2);
      DecodeOne(b, out.bytes, s[..|s| - |s1|], b1, code, rest.bytes, bs);
    }
  }

  lemma {:induction false} StereoRoundTrip(a: MsState, b: MsState, s: seq<int16>, bs: nat, w: nat)
    requires bs > 0 && DataBytes(bs) % 2 == 0 && InStep(bs, w)
    requires StateOK(a, true) && MsEncodeFrom(a, s, true, bs, w).Some? && MsEncodeFrom(a, s, true, bs, w).value.fits
    requires (w + |MsEncodeFrom(a, s, true, bs, w).value.bytes|) % bs == 0
    requires w % bs != 0 ==> MsAgree(a, b, true)
    ensures ReadsBack(a, b, s, true, bs, w)
    decreases |s|
  {
    hide MsEncodeFrom, MsDecodeFrom, MsEnterBlock, MsResume, MsEncodeByte, MsDecodeByte, Heard, StateOK, MsAgree;
    hide InStep, DataBytes, ByteInInt32;
    if s == [] {
      NothingEncoded(a, true, bs, w);
      NothingDecoded(b, true, bs);
    } else {
      var out := MsEncodeFrom(a, s, true, bs, w).value;
      MsEncodeNext(a, s, true, bs, w);
      var (header, a1, s1) := MsEnterBlock(a, s, true, bs, w).value;
      var (code, a2) := MsEncodeByte(a1, s1[0], s1[1], true);
      var w2, s2 := w + |header| + 1, s1[2..];
      var rest := MsEncodeFrom(a2, s2, true, bs, w2).value;
      assert out.bytes == header + ([code] + rest.bytes);
      MsEntered(a, b, s, [code] + rest.bytes, true, bs, w);
      var b1 := MsResume(b, out.bytes, true, bs).value.1;
      ByteRoundTrip(a1, b1, s1[0], s1[1], true);
      var x := MsDecodeByte(b1, code, true);
      TwoOn(bs, w);
      SecondCode(a2, s2, bs, w2);
      var (code2, a3) := MsEncodeByte(a2, s2[0], s2[1], true);
      ByteRoundTrip(a2, x.2, s2[0], s2[1], true);
      var y := MsDecodeByte(x.2, code2, true);
      var rest2 := MsEncodeFrom(a3, s2[2..], true, bs, w2 + 1).value;
      StereoRoundTrip(a3, y.2, s2[2..], bs, w2 + 1);
      DecodeTwo(b, out.bytes, s[..|s| - |s1|], b1, code, code2, rest2.bytes, bs);
      assert out.heard == s[..|s| - |s1|] + [x.0, x.1] + [y.0, y.1] + rest2.heard;
    }
  }

  /** Inside a block the encoder writes no header, and it does not stop there when the stream fills its
      last block. */
  lemma SecondCode(a: MsState, s: seq<int16>, bs: nat, w: nat)
    requires bs > 0 && w % bs != 0 && StateOK(a, true) && MsEncodeFrom(a, s, true, bs, w).Some?
    requires (w + |MsEncodeFrom(a, s, true, bs, w).value.bytes|) % bs == 0
    ensures |s| >= 2
    ensures var (code, a2) := MsEncodeByte(a, s[0], s[1], true);
            && StateOK(a2, true) && MsEncodeFrom(a2, s[2..], true, bs, w + 1).Some?
            && var rest := MsEncodeFrom(a2, s[2..], true, bs, w + 1).value;
               MsEncodeFrom(a, s, true, bs, w).value
               == Encoding([code] + rest.bytes, Heard(a, s[0], s[1], true) + rest.heard, rest.last, rest.fits)
  {
    hide MsEncodeFrom, MsEncodeByte, Heard, StateOK;
    var out := MsEncodeFrom(a, s, true, bs, w).value;
    if s == [] { NothingEncoded(a, true, bs, w); }
    MsEncodeNext(a, s, true, bs, w);
    var (code, a2) := MsEncodeByte(a, s[0], s[1], true);
    var rest := MsEncodeFrom(a2, s[2..], true, bs, w + 1).value;
    assert [] + [code] + rest.bytes == [code] + rest.bytes;
    assert s[..0] + Heard(a, s[0], s[1], true) == Heard(a, s[0], s[1], true);
  }

  /** Decoding the encoder's output gives the first two frames of each block as they were and the
      encoder's own reconstruction of all others, for streams that fill their last block and whose
      steps fit their headers. */
  lemma MsStreamRoundTrip(a: MsState, b: MsState, s: seq<int16>, stereo: bool, bs: nat)
    requires bs > 0 && StateOK(a, stereo) && (stereo ==> DataBytes(bs) % 2 == 0)
    requires MsEncodeFrom(a, s, stereo, bs, 0).Some? && MsEncodeFrom(a, s, stereo, bs, 0).value.fits
    requires |MsEncodeFrom(a, s, stereo, bs, 0).value.bytes| % bs == 0
    ensures var out := MsEncodeFrom(a, s, stereo, bs, 0).value;
            var r := MsDecodeFrom(b, out.bytes, stereo, bs);
            && r.Some? && r.value.0 == out.heard && (s != [] ==> MsAgree(out.last, r.value.1, stereo))
  {
    hide MsEncodeFrom, MsDecodeFrom;
    DivModUnique(0, bs, 0, 0);
    if stereo {
      StereoRoundTrip(a, b, s, bs, 0);
    } else {
      MonoRoundTrip(a, b, s, bs, 0);
    }
  }

  // ----- predictors whose steps fit

  predicate TameState(st: MsState, stereo: bool) {
    Tame(st.left.predictor) && (stereo ==> Tame(st.right.predictor))
  }

  /** With tame predictors, such as the predictor 0 of a context that only encodes, all headers of a stream
      hold their steps if the first one does. */
  lemma {:induction false} TameFits(st: MsState, s: seq<int16>, stereo: bool, bs: nat, w: nat)
    requires bs > 0 && StateOK(st, stereo) && HeaderFits(st, stereo) && TameState(st, stereo)
    ensures MsEncodeFrom(st, s, stereo, bs, w).Some? ==> MsEncodeFrom(st, s, stereo, bs, w).value.fits
    decreases |s|
  {
    hide MsEncodeByte, MsHeader, MsEncodeFrom, Tame, DeltaOK;
    if s == [] {
      NothingEncoded(st, stereo, bs, w);
    } else if MsEncodeFrom(st, s, stereo, bs, w).Some? {
      MsEncodeNext(st, s, stereo, bs, w);
      var (header, st1, s1) := MsEnterBlock(st, s, stereo, bs, w).value;
      TameByte(st1, s1[0], s1[1], stereo);
      TameFits(MsEncodeByte(st1, s1[0], s1[1], stereo).1, s1[2..], stereo, bs, w + |header| + 1);
    }
  }

  lemma TameByte(st: MsState, x: int16, y: int16, stereo: bool)
    requires StateOK(st, stereo) && HeaderFits(st, stereo) && TameState(st, stereo)
    ensures var st2 := MsEncodeByte(st, x, y, stereo).1;
            HeaderFits(st2, stereo) && TameState(st2, stereo)
  {
    hide MsEncodeSample, Tame;
    DeltaStays(st.left, x);
    DeltaStays(if stereo then st.right else MsEncodeSample(st.left, x).1, y);
  }

  /** So such a context needs no condition on what its headers turn out to hold. */
  lemma TameRoundTrip(a: MsState, b: MsState, s: seq<int16>, stereo: bool, bs: nat)
    requires bs > 0 && (stereo ==> DataBytes(bs) % 2 == 0)
    requires StateOK(a, stereo) && HeaderFits(a, stereo) && TameState(a, stereo)
    requires MsEncodeFrom(a, s, stereo, bs, 0).Some? && |MsEncodeFrom(a, s, stereo, bs, 0).value.bytes| % bs == 0
    ensures var out := MsEncodeFrom(a, s, stereo, bs, 0).value;
            var r := MsDecodeFrom(b, out.bytes, stereo, bs);
            && r.Some? && r.value.0 == out.heard && (s != [] ==> MsAgree(out.last, r.value.1, stereo))
  {
    hide MsEncodeFrom, MsDecodeFrom;
    TameFits(a, s, stereo, bs, 0);
    MsStreamRoundTrip(a, b, s, stereo, bs);
  }

  // ----- exactly which stereo block sizes work

  /** Every stream that fills its last block, encoded with tame predictors, decodes to what the encoder
      heard. */
  ghost predicate StereoWorks(bs: nat)
    requires bs > 0
  {
    forall a: MsState, b: MsState, s: seq<int16> ::
      StateOK(a, true) && HeaderFits(a, true) && TameState(a, true) && MsEncodeFrom(a, s, true, bs, 0).Some?
      && |MsEncodeFrom(a, s, true, bs, 0).value.bytes| % bs == 0 ==>
        MsDecodeFrom(b, MsEncodeFrom(a, s, true, bs, 0).value.bytes, true, bs).Some?
        && MsDecodeFrom(b, MsEncodeFrom(a, s, true, bs, 0).value.bytes, true, bs).value.0
           == MsEncodeFrom(a, s, true, bs, 0).value.heard
  }

  /** Inside a block every two samples become a byte. */
  lemma {:induction false} InBlock(a: MsState, s: seq<int16>, m: nat, bs: nat, w: nat)
    requires bs > 0 && StateOK(a, true) && |s| == 2 * m && w % bs + m <= bs && (m > 0 ==> w % bs > 0)
    ensures MsEncodeFrom(a, s, true, bs, w).Some? && |MsEncodeFrom(a, s, true, bs, w).value.bytes| == m
    decreases m
  {
    hide MsEncodeFrom, MsEncodeByte, Heard, StateOK;
    if m == 0 {
      NothingEncoded(a, true, bs, w);
    } else {
      ModAdd(w, bs, 1);
      ByteRoundTrip(a, a, s[0], s[1], true);
      InBlock(MsEncodeByte(a, s[0], s[1], true).1, s[2..], m - 1, bs, w + 1);
      EncodeOneMore(a, s, true, bs, w);
      MsEncodeNext(a, s, true, bs, w);
    }
  }

  /** The samples of one stereo block become one block of bytes. */
  lemma BlockOfBytes(a: MsState, s: seq<int16>, bs: nat)
    requires bs > 0 && StateOK(a, true) && |s| == 4 + 2 * DataBytes(bs)
    ensures MsEncodeFrom(a, s, true, bs, 0).Some?
    ensures |MsEncodeFrom(a, s, true, bs, 0).value.bytes| == 14 + DataBytes(bs)
    ensures (14 + DataBytes(bs)) % bs == 0
  {
    hide MsEncodeFrom, MsEncodeByte, Heard, MsHeader, DeltaOK;
    var n := DataBytes(bs);
    DivModUnique(0, bs, 0, 0);
    ModAdd(14, bs, n);
    ModAdd(14, bs, 1);
    OpenKeeps(a, s, true, bs, 0);
    var (header, a1, s1) := MsEnterBlock(a, s, true, bs, 0).value;
    ByteRoundTrip(a1, a1, s1[0], s1[1], true);
    InBlock(MsEncodeByte(a1, s1[0], s1[1], true).1, s1[2..], n - 1, bs, 15);
    EncodeOneMore(a, s, true, bs, 0);
    MsEncodeNext(a, s, true, bs, 0);
  }

  /** An odd number of data bytes, fewer than a block, ends in the middle of a pair. */
  lemma {:induction false} OddRest(b: MsState, x: seq<byte>, bs: nat)
    requires bs > 0 && |x| % 2 == 1 && |x| < bs
    ensures MsDecodeFrom(b, x, true, bs) == None
    decreases |x|
  {
    hide MsDecodeFrom, MsDecodeByte, ByteInInt32;
    DivModUnique(|x|, bs, 0, |x|);
    assert MsResume(b, x, true, bs) == Some(([], b, x));
    if |x| == 1 {
      LoneByte(b, x, [], b, x, bs);
    } else {
      assert x == [x[0]] + ([x[1]] + x[2..]);
      var y := MsDecodeByte(MsDecodeByte(b, x[0], true).2, x[1], true).2;
      OddRest(y, x[2..], bs);
      if ByteInInt32(b, x[0], true) && ByteInInt32(MsDecodeByte(b, x[0], true).2, x[1], true) {
        DecodeTwo(b, x, [], b, x[0], x[1], x[2..], bs);
      } else {
        DecodeOverflows(b, x, [], b, x[0], x[1], x[2..], bs);
      }
    }
  }

  lemma LoneByte(b: MsState, x: seq<byte>, head: seq<int16>, b1: MsState, rest: seq<byte>, bs: nat)
    requires bs > 0 && x != [] && MsResume(b, x, true, bs) == Some((head, b1, rest)) && |rest| < 2
    ensures MsDecodeFrom(b, x, true, bs) == None
  {
    hide MsResume;
  }

  /** No decoder reads one block of a size with an odd number of data bytes. */
  lemma OddBlockFails(b: MsState, x: seq<byte>, bs: nat)
    requires bs > 0 && DataBytes(bs) % 2 == 1 && |x| == 14 + DataBytes(bs)
    ensures MsDecodeFrom(b, x, true, bs) == None
  {
    hide MsDecodeFrom, MsDecodeByte, MsReadHeader, DataBytes, ByteInInt32;
    var n := DataBytes(bs);
    BlockAligned(bs);
    if MsReadHeader(b, x[..14], true).None? {
      NoHeader(b, x, bs);
    } else {
      var (head, b1) := MsReadHeader(b, x[..14], true).value;
      var data := x[14..];
      assert MsResume(b, x, true, bs) == Some((head, b1, data));
      if n == 1 {
        LoneByte(b, x, head, b1, data, bs);
      } else {
        assert data == [data[0]] + ([data[1]] + data[2..]);
        OddRest(MsDecodeByte(MsDecodeByte(b1, data[0], true).2, data[1], true).2, data[2..], bs);
        if ByteInInt32(b1, data[0], true) && ByteInInt32(MsDecodeByte(b1, data[0], true).2, data[1], true) {
          DecodeTwo(b, x, head, b1, data[0], data[1], data[2..], bs);
        } else {
          DecodeOverflows(b, x, head, b1, data[0], data[1], data[2..], bs);
        }
      }
    }
  }

  lemma BlockAligned(bs: nat)
    requires bs > 0
    ensures (14 + DataBytes(bs)) % bs == 0
  {
    ModAdd(14, bs, DataBytes(bs));
  }

  lemma NoHeader(b: MsState, x: seq<byte>, bs: nat)
    requires bs > 0 && x != [] && MsResume(b, x, true, bs).None?
    ensures MsDecodeFrom(b, x, true, bs) == None
  {
    hide MsResume;
  }

  /** Stereo streams read back exactly for the block sizes with an even number of data bytes. */
  lemma StereoWorksIff(bs: nat)
    requires bs > 0
    ensures StereoWorks(bs) <==> DataBytes(bs) % 2 == 0
  {
    hide MsEncodeFrom, MsDecodeFrom, DataBytes;
    if DataBytes(bs) % 2 == 0 {
      forall a: MsState, b: MsState, s: seq<int16> |
        StateOK(a, true) && HeaderFits(a, true) && TameState(a, true) && MsEncodeFrom(a, s, true, bs, 0).Some?
        && |MsEncodeFrom(a, s, true, bs, 0).value.bytes| % bs == 0
        ensures MsDecodeFrom(b, MsEncodeFrom(a, s, true, bs, 0).value.bytes, true, bs).Some?
        ensures MsDecodeFrom(b, MsEncodeFrom(a, s, true, bs, 0).value.bytes, true, bs).value.0
             == MsEncodeFrom(a, s, true, bs, 0).value.heard
      {
        TameRoundTrip(a, b, s, true, bs);
      }
    } else {
      var c := MsChannel(0, 16, 0, 0);
      var a := MsState(c, c);
      var s: seq<int16> := seq(4 + 2 * DataBytes(bs), _ => 0);
      BlockOfBytes(a, s, bs);
      OddBlockFails(a, MsEncodeFrom(a, s, true, bs, 0).value.bytes, bs);
    }
  }
}
