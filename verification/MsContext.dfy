/** Microsoft ADPCM as the C code runs it: channel fields updated sample by sample. */
module MsContext {
  import opened Basics
  import opened Bits
  import opened ImaAdpcm
  import opened ImaBuffer
  import opened ImaContext
  import opened MsAdpcm
  import opened MsStream

  function GetMs(st: MsState, channel: nat): MsChannel {
    if channel == 0 then st.left else st.right
  }

  function PutMs(st: MsState, channel: nat, c: MsChannel): MsState {
    if channel == 0 then st.(left := c) else st.(right := c)
  }

  class MsAdpcmContext {
    const predictor: array<coeffSet>
    const delta: array<int>
    const sample1: array<int16>
    const sample2: array<int16>
    var buffer: array<byte>
    var size: nat

    ghost predicate Valid()
      reads this
    {
      && predictor.Length == delta.Length == sample1.Length == sample2.Length == 2
      && sample1 != sample2 && (predictor as object) != (delta as object)
      && (predictor as object) != (sample1 as object) && (predictor as object) != (sample2 as object)
      && (delta as object) != (sample1 as object) && (delta as object) != (sample2 as object)
      && Apart(buffer)
    }

    ghost function At(channel: nat): MsChannel
      reads this, predictor, delta, sample1, sample2
      requires Valid() && channel < 2
    {
      MsChannel(predictor[channel], delta[channel], sample1[channel], sample2[channel])
    }

    ghost function State(): MsState
      reads this, predictor, delta, sample1, sample2
      requires Valid()
    {
      MsState(At(0), At(1))
    }

    /** A context after freerdp_dsp_context_reset_adpcm. */
    constructor ()
      ensures Valid() && fresh(predictor) && fresh(delta) && fresh(sample1) && fresh(sample2)
      ensures State() == MsState(MsChannel(0, 0, 0, 0), MsChannel(0, 0, 0, 0))
      ensures fresh(buffer) && buffer.Length == 0 && size == 0
    {
      predictor := new coeffSet[2](_ => 0);
      delta := new int[2](_ => 0);
      sample1 := new int16[2](_ => 0);
      sample2 := new int16[2](_ => 0);
      buffer := new byte[0];
      size := 0;
    }

    /** `presample` of both sample routines. */
    method Presample(channel: nat) returns (presample: int)
      requires Valid() && channel < 2
      ensures presample == Predict(At(channel))
    {
      var (c1, c2) := Coeffs(predictor[channel]);
      presample := CDiv(sample1[channel] * c1 + sample2[channel] * c2, 256);
    }

    /** The clamp, the sample history and the step update that both sample routines end with. */
    method Advance(channel: nat, presample: int, code: nibble)
      requires Valid() && channel < 2
      modifies delta, sample1, sample2
      ensures At(channel) == Update(old(At(channel)), presample, code) && At(1 - channel) == old(At(1 - channel))
    {
      hide Adaptation;
      sample2[channel] := sample1[channel];
      sample1[channel] := if presample > 32767 then 32767 else if presample < -32768 then -32768 else presample;
      delta[channel] := CDiv(delta[channel] * Adaptation(code), 256);
      if delta[channel] < 16 { delta[channel] := 16; }
    }

    /** freerdp_dsp_decode_ms_adpcm_sample. */
    method DecodeSample(sample: nibble, channel: nat) returns (decoded: int16)
      requires Valid() && channel < 2
      modifies delta, sample1, sample2
      ensures State() == PutMs(old(State()), channel, MsDecodeSample(GetMs(old(State()), channel), sample))
      ensures decoded == GetMs(State(), channel).sample1
    {
      hide Update, Predict;
      var nibble := if sample >= 8 then sample - 16 else sample;
      var presample := Presample(channel);
      presample := presample + nibble * delta[channel];
      Advance(channel, presample, sample);
      decoded := sample1[channel];
    }

    /** freerdp_dsp_encode_ms_adpcm_sample. */
    method EncodeSample(sample: int16, channel: nat) returns (code: nibble)
      requires Valid() && channel < 2 && delta[channel] > 0
      modifies delta, sample1, sample2
      ensures State() == PutMs(old(State()), channel, MsEncodeSample(GetMs(old(State()), channel), sample).1)
      ensures code == MsEncodeSample(GetMs(old(State()), channel), sample).0
    {
      hide Update, Predict, CDiv, CMod;
      var presample := Presample(channel);
      var errordelta := CDiv(sample - presample, delta[channel]);
      if CMod(sample - presample, delta[channel]) > CDiv(delta[channel], 2) {
        errordelta := errordelta + 1;
      }
      if errordelta > 7 { errordelta := 7; } else if errordelta < -8 { errordelta := -8; }
      presample := presample + delta[channel] * errordelta;
      code := if errordelta < 0 then errordelta + 16 else errordelta;
      Advance(channel, presample, code);
    }

    /** One data byte of the encoder's loop. */
    method EncodeByte(a: int16, b: int16, channels: nat) returns (code: byte)
      requires Valid() && StateOK(State(), channels > 1)
      modifies delta, sample1, sample2
      ensures (code, State()) == MsEncodeByte(old(State()), a, b, channels > 1)
    {
      hide MsEncodeSample;
      DeltaStays(State().left, a);
      var first := EncodeSample(a, 0);
      var second := EncodeSample(b, if channels > 1 then 1 else 0);
      code := PairByte(second, first);
    }

    /** One data byte of the decoder's loop. */
    method DecodeByte(x: byte, channels: nat) returns (a: int16, b: int16)
      requires Valid()
      modifies delta, sample1, sample2
      ensures (a, b, State()) == MsDecodeByte(old(State()), x, channels > 1)
    {
      hide MsDecodeSample;
      a := DecodeSample(x / 16, 0);
      b := DecodeSample(x % 16, if channels > 1 then 1 else 0);
    }

    ghost predicate Apart(dst: array<byte>)
      reads this
    {
      && (dst as object) != (predictor as object) && (dst as object) != (delta as object)
      && (dst as object) != (sample1 as object) && (dst as object) != (sample2 as object)
    }

    /** The header of one block: each channel's first two samples become its sample2 and sample1. */
    method OpenBlock(s: seq<int16>, channels: nat, dst: array<byte>, o: nat) returns (next: nat)
      requires Valid() && Apart(dst) && |s| == MsHeaderSamples(channels > 1)
      requires o + MsHeaderBytes(channels > 1) <= dst.Length
      modifies sample1, sample2, dst
      ensures State() == MsOpen(old(State()), s, channels > 1) && next == o + MsHeaderBytes(channels > 1)
      ensures dst[..next] == old(dst[..o]) + MsHeader(State(), channels > 1)
    {
      hide TwoBytes;
      ghost var was := dst[..o];
      if channels > 1 {
        sample1[0], sample1[1], sample2[0], sample2[1] := s[2], s[3], s[0], s[1];
        dst[o], dst[o + 1] := predictor[0], predictor[1];
        assert dst[..o + 2] == was + [predictor[0], predictor[1]];
        PutBoth(dst, o + 2, delta[0], delta[1]);
        PutBoth(dst, o + 6, sample1[0], sample1[1]);
        PutBoth(dst, o + 10, sample2[0], sample2[1]);
        next := o + 14;
        Regroup(was, [predictor[0], predictor[1]], TwoBytes(delta[0]), TwoBytes(delta[1]),
                TwoBytes(sample1[0]), TwoBytes(sample1[1]), TwoBytes(sample2[0]), TwoBytes(sample2[1]));
      } else {
        sample1[0], sample2[0] := s[1], s[0];
        dst[o] := predictor[0];
        assert dst[..o + 1] == was + [predictor[0]];
        PutTwo(dst, o + 1, delta[0]);
        PutTwo(dst, o + 3, sample1[0]);
        PutTwo(dst, o + 5, sample2[0]);
        next := o + 7;
        Regroup(was, [predictor[0]], TwoBytes(delta[0]), TwoBytes(sample1[0]), TwoBytes(sample2[0]), [], [], []);
      }
    }

    /** The same field of both channels. */
    method PutBoth(dst: array<byte>, o: nat, x: int, y: int)
      requires o + 4 <= dst.Length
      modifies dst
      ensures dst[..o + 4] == old(dst[..o]) + TwoBytes(x) + TwoBytes(y)
    {
      hide TwoBytes;
      PutTwo(dst, o, x);
      PutTwo(dst, o + 2, y);
    }

    method PutTwo(dst: array<byte>, o: nat, x: int)
      requires o + 2 <= dst.Length
      modifies dst
      ensures dst[..o + 2] == old(dst[..o]) + TwoBytes(x)
    {
      dst[o], dst[o + 1] := x % 256, x / 256 % 256;
    }

    /** The header test of the encoder. */
    method EnterBlock(src: seq<byte>, n0: nat, channels: nat, blockSize: nat, dst: array<byte>,
        o: nat) returns (n: nat, next: nat)
      requires Valid() && Apart(dst) && blockSize > 0 && n0 <= |Samples(src)| && StateOK(State(), channels > 1)
      requires var r := MsEnterBlock(State(), Samples(src)[n0..], channels > 1, blockSize, o);
               r.Some? && o + |r.value.0| <= dst.Length
      modifies sample1, sample2, dst
      ensures n0 <= n <= |Samples(src)| && o <= next <= dst.Length
      ensures var r := MsEnterBlock(old(State()), Samples(src)[n0..], channels > 1, blockSize, o).value;
              && next == o + |r.0| && dst[..next] == old(dst[..o]) + r.0
              && State() == r.1 && Samples(src)[n..] == r.2
    {
      hide MsHeader, MsOpen, Samples, StateOK;
      n, next := n0, o;
      if o % blockSize == 0 {
        var head := ReadSamples(src, n0, MsHeaderSamples(channels > 1));
        assert Samples(src)[n0..][..|head|] == head && Samples(src)[n0..][|head|..] == Samples(src)[n0 + |head|..];
        next := OpenBlock(head, channels, dst, o);
        n := n0 + |head|;
      }
    }

    /** One turn of the encoder's loop. */
    method EncodeTurn(src: seq<byte>, n0: nat, channels: nat, blockSize: nat, dst: array<byte>,
        o: nat) returns (n: nat, next: nat)
      requires Valid() && Apart(dst) && blockSize > 0 && n0 < |Samples(src)| && StateOK(State(), channels > 1)
      requires var r := MsEncodeFrom(State(), Samples(src)[n0..], channels > 1, blockSize, o);
               r.Some? && o + |r.value.bytes| <= dst.Length
      modifies delta, sample1, sample2, dst
      ensures n0 < n <= |Samples(src)| && next <= dst.Length && StateOK(State(), channels > 1)
      ensures var was := MsEncodeFrom(old(State()), Samples(src)[n0..], channels > 1, blockSize, o).value;
              var r := MsEncodeFrom(State(), Samples(src)[n..], channels > 1, blockSize, next);
              r.Some? && old(dst[..o]) + was.bytes == dst[..next] + r.value.bytes && was.last == r.value.last
    {
      hide MsEncodeFrom, MsEncodeByte, MsEnterBlock, Samples, Heard, DeltaOK;
      MsEncodeNext(State(), Samples(src)[n0..], channels > 1, blockSize, o);
      n, next := EnterBlock(src, n0, channels, blockSize, dst, o);
      var pair := ReadSamples(src, n, 2);
      var code := EncodeByte(pair[0], pair[1], channels);
      dst[next] := code;
      n, next := n + 2, next + 1;
    }

    /** freerdp_dsp_encode_ms_adpcm, with a buffer that grows when half the input outgrows it. */
    method Encode(src: seq<byte>, channels: nat, blockSize: nat)
      requires Valid() && blockSize > 0 && |src| % 2 == 0 && StateOK(Started(State()), channels > 1)
      requires var r := MsEncodeFrom(Started(State()), Samples(src), channels > 1, blockSize, 0);
               r.Some? && |r.value.bytes| <= Grown(buffer.Length, |Samples(src)|)
      modifies this`buffer, this`size, delta, sample1, sample2, buffer
      ensures Valid() && size <= buffer.Length == Grown(old(buffer.Length), |Samples(src)|)
      ensures buffer == old(buffer) || fresh(buffer)
      ensures var r := MsEncodeFrom(Started(old(State())), Samples(src), channels > 1, blockSize, 0).value;
              buffer[..size] == r.bytes && State() == r.last
    {
      hide MsEncodeFrom, StateOK;
      if |src| / 2 > buffer.Length {
        buffer := new byte[|src| / 2 + 1024];
      }
      size := EncodeInto(src, channels, blockSize, buffer);
    }

    /** Its loop, into a buffer with room for the stream. */
    method EncodeInto(src: seq<byte>, channels: nat, blockSize: nat, dst: array<byte>) returns (size: nat)
      requires Valid() && Apart(dst) && blockSize > 0 && |src| % 2 == 0 && StateOK(Started(State()), channels > 1)
      requires var r := MsEncodeFrom(Started(State()), Samples(src), channels > 1, blockSize, 0);
               r.Some? && |r.value.bytes| <= dst.Length
      modifies delta, sample1, sample2, dst
      ensures var r := MsEncodeFrom(Started(old(State())), Samples(src), channels > 1, blockSize, 0).value;
              size == |r.bytes| && dst[..size] == r.bytes && State() == r.last
    {
      hide MsEncodeFrom, MsEncodeByte, MsEnterBlock, Samples, Heard, DeltaOK;
      ghost var stereo, samples := channels > 1, Samples(src);
      StartClamped(State());
      if delta[0] < 16 { delta[0] := 16; }
      if delta[1] < 16 { delta[1] := 16; }
      ghost var goal := MsEncodeFrom(State(), samples, stereo, blockSize, 0).value;
      var sp: nat, n: nat := 0, 0;
      size := 0;
      assert samples[0..] == samples && dst[..0] + goal.bytes == goal.bytes;
      while sp < |src|
        invariant sp == 2 * n && n <= |samples| && StateOK(State(), stereo)
        invariant size <= dst.Length && |goal.bytes| <= dst.Length
        invariant MsEncodeFrom(State(), samples[n..], stereo, blockSize, size).Some?
        invariant var rest := MsEncodeFrom(State(), samples[n..], stereo, blockSize, size).value;
                  goal.bytes == dst[..size] + rest.bytes && goal.last == rest.last
      {
        n, size := EncodeTurn(src, n, channels, blockSize, dst, size);
        sp := 2 * n;
      }
      assert samples[n..] == [];
      NothingEncoded(State(), stereo, blockSize, size);
    }

    /** The header test of the decoder; the header's samples go straight to the output. */
    method ResumeBlock(src: seq<byte>, sp: nat, channels: nat, blockSize: nat, dst: array<byte>,
        o: nat) returns (p: nat, next: nat)
      requires Valid() && Apart(dst) && blockSize > 0 && sp <= |src|
          && MsResume(State(), src[sp..], channels > 1, blockSize).Some?
      requires o + 4 * (|src| - sp) <= dst.Length
      modifies predictor, delta, sample1, sample2, dst
      ensures sp <= p <= |src| && o <= next <= o + 4 * (p - sp)
      ensures var (samples, st, rest) := MsResume(old(State()), src[sp..], channels > 1, blockSize).value;
              && State() == st && src[p..] == rest && next == o + 2 * |samples| <= dst.Length
              && StoredAt(dst[..], o, samples) && dst[..o] == old(dst[..o])
    {
      hide MsReadHeader, StoredSample;
      p, next := sp, o;
      if (|src| - sp) % blockSize == 0 {
        if channels > 1 {
          assert src[sp..][..14] == src[sp..sp + 14] && src[sp..][14..] == src[sp + 14..];
          ReadHeader(src[sp..sp + 14], channels);
          PutSamples(dst, o, [sample2[0], sample2[1], sample1[0], sample1[1]]);
          p, next := sp + 14, o + 8;
        } else {
          assert src[sp..][..7] == src[sp..sp + 7] && src[sp..][7..] == src[sp + 7..];
          ReadHeader(src[sp..sp + 7], channels);
          PutSamples(dst, o, [sample2[0], sample1[0]]);
          p, next := sp + 7, o + 4;
        }
      }
    }

    /** The fields of a block header. */
    method ReadHeader(b: seq<byte>, channels: nat)
      requires Valid() && |b| == MsHeaderBytes(channels > 1) && MsReadHeader(State(), b, channels > 1).Some?
      modifies predictor, delta, sample1, sample2
      ensures State() == MsReadHeader(old(State()), b, channels > 1).value.1
      ensures channels > 1 ==>
        MsReadHeader(old(State()), b, true).value.0 == [sample2[0], sample2[1], sample1[0], sample1[1]]
      ensures channels <= 1 ==> MsReadHeader(old(State()), b, false).value.0 == [sample2[0], sample1[0]]
    {
      hide Int16At;
      if channels > 1 {
        predictor[0], predictor[1] := b[0], b[1];
        delta[0], delta[1] := Int16At(b[2], b[3]), Int16At(b[4], b[5]);
        sample1[0], sample1[1] := Int16At(b[6], b[7]), Int16At(b[8], b[9]);
        sample2[0], sample2[1] := Int16At(b[10], b[11]), Int16At(b[12], b[13]);
      } else {
        predictor[0], delta[0] := b[0], Int16At(b[1], b[2]);
        sample1[0], sample2[0] := Int16At(b[3], b[4]), Int16At(b[5], b[6]);
      }
    }

    /** One turn of the decoder's loop: two data bytes of a stereo stream or one of a mono stream. */
    method DecodeTurn(src: seq<byte>, sp: nat, channels: nat, blockSize: nat, dst: array<byte>, o: nat)
        returns (p: nat, next: nat, ghost samples: seq<int16>)
      requires Valid() && Apart(dst) && blockSize > 0 && sp < |src|
          && MsDecodeFrom(State(), src[sp..], channels > 1, blockSize).Some?
      requires o + 4 * (|src| - sp) <= dst.Length
      modifies predictor, delta, sample1, sample2, dst
      ensures sp < p <= |src| && next == o + 2 * |samples| <= dst.Length && next <= o + 4 * (p - sp)
      ensures MsDecodeFrom(old(State()), src[sp..], channels > 1, blockSize)
          == After(samples, MsDecodeFrom(State(), src[p..], channels > 1, blockSize))
      ensures StoredAt(dst[..], o, samples) && dst[..o] == old(dst[..o])
    {
      hide MsDecodeFrom, MsResume, MsDecodeByte, StoredAt;
      MsDecodeNext(State(), src[sp..], channels > 1, blockSize);
      ghost var (head, st, rest) := MsResume(State(), src[sp..], channels > 1, blockSize).value;
      p, next := ResumeBlock(src, sp, channels, blockSize, dst, o);
      var a, b := DecodeByte(src[p], channels);
      var pixels := [a, b];
      p := p + 1;
      if channels > 1 {
        a, b := DecodeByte(src[p], channels);
        pixels := pixels + [a, b];
        p := p + 1;
      }
      ghost var before := dst[..];
      PutSamples(dst, next, pixels);
      StoredBoth(before, dst[..], o, head, pixels);
      next, samples := next + 2 * |pixels|, head + pixels;
    }

    /** freerdp_dsp_decode_ms_adpcm on a stream it does not run off. */
    method Decode(src: seq<byte>, channels: nat, blockSize: nat)
      requires Valid() && blockSize > 0 && MsDecodeFrom(State(), src, channels > 1, blockSize).Some?
      modifies this`buffer, this`size, predictor, delta, sample1, sample2, buffer
      ensures Valid() && size <= buffer.Length == Grown(old(buffer.Length), 4 * |src|)
      ensures buffer == old(buffer) || fresh(buffer)
      ensures var (samples, st) := MsDecodeFrom(old(State()), src, channels > 1, blockSize).value;
              size == 2 * |samples| && StoredAt(buffer[..], 0, samples) && State() == st
    {
      hide MsDecodeFrom, StoredAt;
      if 4 * |src| > buffer.Length {
        buffer := new byte[4 * |src| + 1024];
      }
      size := DecodeInto(src, channels, blockSize, buffer);
    }

    /** Its loop; the buffer has four bytes for each byte of the stream. */
    method DecodeInto(src: seq<byte>, channels: nat, blockSize: nat, dst: array<byte>) returns (size: nat)
      requires Valid() && Apart(dst) && blockSize > 0 && 4 * |src| <= dst.Length
      requires MsDecodeFrom(State(), src, channels > 1, blockSize).Some?
      modifies predictor, delta, sample1, sample2, dst
      ensures var (samples, st) := MsDecodeFrom(old(State()), src, channels > 1, blockSize).value;
              size == 2 * |samples| <= dst.Length && StoredAt(dst[..], 0, samples) && State() == st
    {
      hide MsDecodeFrom, StoredAt;
      ghost var (goal, last) := MsDecodeFrom(State(), src, channels > 1, blockSize).value;
      ghost var done, rest := [], goal;
      var sp: nat := 0;
      size := 0;
      assert src[0..] == src && [] + goal == goal;
      NoSamples(dst[..]);
      while sp < |src|
        invariant sp <= |src| && size == 2 * |done| <= 4 * sp && goal == done + rest
        invariant MsDecodeFrom(State(), src[sp..], channels > 1, blockSize) == Some((rest, last))
        invariant StoredAt(dst[..], 0, done)
      {
        ghost var before := dst[..];
        ghost var samples;
        sp, size, samples := DecodeTurn(src, sp, channels, blockSize, dst, size);
        StoredBoth(before, dst[..], 0, done, samples);
        rest := rest[|samples|..];
        assert done + (samples + rest) == done + samples + rest;
        done := done + samples;
      }
      assert src[sp..] == [];
      NothingDecoded(State(), channels > 1, blockSize);
      assert done == goal;
    }
  }

  /** One turn of the decoder's loop, on values. */
  lemma MsDecodeNext(st: MsState, b: seq<byte>, stereo: bool, bs: nat)
    requires bs > 0 && b != [] && MsDecodeFrom(st, b, stereo, bs).Some?
    ensures MsResume(st, b, stereo, bs).Some?
    ensures var (head, st1, b1) := MsResume(st, b, stereo, bs).value;
            && |b1| >= (if stereo then 2 else 1)
            && var x := MsDecodeByte(st1, b1[0], stereo);
               if stereo then
                 var y := MsDecodeByte(x.2, b1[1], stereo);
                 MsDecodeFrom(st, b, stereo, bs)
                     == After(head + ([x.0, x.1] + [y.0, y.1]), MsDecodeFrom(y.2, b1[2..], stereo, bs))
               else MsDecodeFrom(st, b, stereo, bs) == After(head + [x.0, x.1], MsDecodeFrom(x.2, b1[1..], stereo, bs))
  {
    hide MsResume, MsDecodeByte;
    var (head, st1, b1) := MsResume(st, b, stereo, bs).value;
    var x := MsDecodeByte(st1, b1[0], stereo);
    if stereo {
      var y := MsDecodeByte(x.2, b1[1], stereo);
      assert head + [x.0, x.1] + [y.0, y.1] == head + ([x.0, x.1] + [y.0, y.1]);
    }
  }

  method PutSamples(dst: array<byte>, o: nat, s: seq<int16>)
    requires o + 2 * |s| <= dst.Length
    modifies dst
    ensures StoredAt(dst[..], o, s) && dst[..o] == old(dst[..o])
  {
    hide Unsigned16;
    for k := 0 to |s|
      invariant dst[..o] == old(dst[..o])
      invariant forall j {:trigger s[j]} :: 0 <= j < k ==> StoredSample(dst[..], o + 2 * j, s[j])
    {
      dst[o + 2 * k], dst[o + 2 * k + 1] := Unsigned16(s[k]) % 256, Unsigned16(s[k]) / 256;
    }
  }

  lemma Regroup(p: seq<byte>, a: seq<byte>, b: seq<byte>, c: seq<byte>, d: seq<byte>, e: seq<byte>, f: seq<byte>,
      g: seq<byte>)
    ensures p + a + b + c + d + e + f + g == p + (a + b + c + d + e + f + g)
  {
  }

  lemma StartClamped(st: MsState)
    ensures Started(st) == MsState(AtLeast16(st.left), AtLeast16(st.right))
  {
  }

  /** Little-endian samples n up to n + count. */
  method ReadSamples(src: seq<byte>, n: nat, count: nat) returns (s: seq<int16>)
    requires n + count <= |Samples(src)|
    ensures s == Samples(src)[n..n + count]
  {
    s := seq(count, k requires 0 <= k < count => Int16At(src[2 * (n + k)], src[2 * (n + k) + 1]));
  }
}
