/** The ADPCM context as the C code runs it: predictor fields updated sample by sample while the
    output buffer is filled. */
module ImaContext {
  import opened Basics
  import opened Bits
  import opened ImaAdpcm
  import opened ImaBuffer

  // ----- the encoder's loop

  function EncodedAfter(p: seq<byte>, r: (seq<byte>, State)): (seq<byte>, State) {
    (p + r.0, r.1)
  }

  /** One turn of the encoder's loop. */
  lemma EncodeNext(st: State, s: seq<int16>, stereo: bool, bs: nat, w: nat, before: seq<byte>)
    requires bs > 0 && Whole(s, stereo) && s != []
    ensures var header, unit := BlockHeader(st, stereo, bs, w), EncodeUnit(st, FirstUnit(s, stereo), stereo);
            var w1 := w + |header| + UnitBytes(stereo);
            && EncodedAfter(before, EncodeFrom(st, s, stereo, bs, w))
               == EncodedAfter(before + header + unit.0, EncodeFrom(unit.1, AfterUnit(s, stereo), stereo, bs, w1))
            && |EncodeFrom(st, s, stereo, bs, w).0| >= |header| + UnitBytes(stereo)
  {
    hide EncodeUnit, BlockHeader, AfterUnit, FirstUnit;
    var header, unit := BlockHeader(st, stereo, bs, w), EncodeUnit(st, FirstUnit(s, stereo), stereo);
    var rest := EncodeFrom(unit.1, AfterUnit(s, stereo), stereo, bs, w + |header| + UnitBytes(stereo)).0;
    assert before + (header + unit.0 + rest) == before + header + unit.0 + rest;
  }

  // ----- bytes and samples

  /** The 16-bit samples of a little-endian byte stream. */
  function Samples(src: seq<byte>): (s: seq<int16>)
    ensures |s| == |src| / 2
  {
    seq(|src| / 2, k requires 0 <= k < |src| / 2 => Int16At(src[2 * k], src[2 * k + 1]))
  }

  lemma HalfOf(n: nat)
    ensures n % 32 == 0 ==> n / 2 % 16 == 0
    ensures n % 4 == 0 ==> n / 2 % 2 == 0
  {
    if n % 32 == 0 {
      assert n / 2 == 16 * (n / 32);
      DivModUnique(n / 2, 16, n / 32, 0);
    }
    if n % 4 == 0 {
      assert n / 2 == 2 * (n / 4);
      DivModUnique(n / 2, 2, n / 4, 0);
    }
  }

  /** The input consists of whole data units: 32 bytes of stereo or 4 bytes of mono samples. */
  predicate WholeUnits(src: seq<byte>, channels: nat): (r: bool)
    ensures r ==> Whole(Samples(src), channels > 1)
  {
    HalfOf(|src|);
    if channels > 1 then |src| % 32 == 0 else |src| % 4 == 0
  }

  /** The unit that starts at sample n. */
  lemma UnitAt(src: seq<byte>, n: nat, stereo: bool)
    requires n < |Samples(src)| && Whole(Samples(src)[n..], stereo)
    ensures var u := UnitSamples(stereo);
            && 2 * (n + u) <= |src|
            && (forall k :: 0 <= k < u ==>
                  FirstUnit(Samples(src)[n..], stereo)[k] == Int16At(src[2 * n + 2 * k], src[2 * n + 2 * k + 1]))
            && n + u <= |Samples(src)| && AfterUnit(Samples(src)[n..], stereo) == Samples(src)[n + u..]
  {
    hide Int16At;
    var s, u := Samples(src), UnitSamples(stereo);
    forall k | 0 <= k < u
      ensures FirstUnit(s[n..], stereo)[k] == Int16At(src[2 * n + 2 * k], src[2 * n + 2 * k + 1])
    {
      assert s[n..][k] == s[n + k];
    }
  }

  /** The samples stand in the buffer from byte `at` on. */
  ghost predicate StoredAt(b: seq<byte>, at: nat, s: seq<int16>) {
    at + 2 * |s| <= |b| && forall k {:trigger s[k]} :: 0 <= k < |s| ==> StoredSample(b, at + 2 * k, s[k])
  }

  predicate StoredSample(b: seq<byte>, at: nat, x: int16)
    requires at + 2 <= |b|
  {
    b[at] == Unsigned16(x) % 256 && b[at + 1] == Unsigned16(x) / 256
  }

  function Get(st: State, channel: nat): Channel {
    if channel == 0 then st.left else st.right
  }

  function Put(st: State, channel: nat, c: Channel): State {
    if channel == 0 then st.(left := c) else st.(right := c)
  }

  // ----- the stereo byte order

  /** ima_stereo_encode_map: byte and shift of the i-th code of a stereo unit. */
  function StereoByte(i: nat): nat
    requires i < 16
  {
    [0, 4, 0, 4, 1, 5, 1, 5, 2, 6, 2, 6, 3, 7, 3, 7][i]
  }

  function StereoShift(i: nat): nat
    requires i < 16
  {
    [0, 0, 4, 4, 0, 0, 4, 4, 0, 0, 4, 4, 0, 0, 4, 4][i]
  }

  /** A byte whose codes are the `low`-th and the (low + 2)-nd, once the first i are in it. */
  ghost function Taken(low: nat, a: nibble, b: nibble, i: nat): byte {
    PairByte(if low < i then a else 0, if low + 2 < i then b else 0)
  }

  lemma TakenStep(low: nat, a: nibble, b: nibble, i: nat)
    ensures i != low && i != low + 2 ==> Taken(low, a, b, i + 1) == Taken(low, a, b, i)
    ensures i == low ==> Taken(low, a, b, i) == 0 && Taken(low, a, b, i + 1) == a
    ensures i == low + 2 ==>
      Taken(low, a, b, i) < 16 && Taken(low, a, b, i + 1) as int == Taken(low, a, b, i) + 16 * (b as int)
  {
  }

  /** Byte j of a stereo unit once the first i codes are in it. */
  ghost function PartialByte(left: seq<nibble>, right: seq<nibble>, i: nat, j: nat): byte
    requires |left| == |right| == 8 && j < 8
  {
    var codes := if j < 4 then left else right;
    Taken(4 * (j % 4) + j / 4, codes[2 * (j % 4)], codes[2 * (j % 4) + 1], i)
  }

  lemma PartialStart(left: seq<nibble>, right: seq<nibble>, j: nat)
    requires |left| == |right| == 8 && j < 8
    ensures PartialByte(left, right, 0, j) == 0
    ensures PartialByte(left, right, 16, j) == (Pair(left) + Pair(right))[j]
  {
    hide PairByte;
    assert j % 4 == if j < 4 then j else j - 4;
    NoneTaken();
  }

  lemma NoneTaken()
    ensures PairByte(0, 0) == 0
  {
  }

  lemma StereoMap(i: nat)
    requires i < 16
    ensures StereoByte(i) == i / 4 + 4 * (i % 2) && StereoShift(i) == 4 * (i / 2 % 2)
  {
  }

  /** Code i is the low or the high one of its byte. */
  lemma Place(i: nat, j: nat)
    requires i < 16 && j < 8
    ensures j == StereoByte(i) <==> i == 4 * (j % 4) + j / 4 || i == 4 * (j % 4) + j / 4 + 2
    ensures j == StereoByte(i) ==> (StereoShift(i) == 0 <==> i == 4 * (j % 4) + j / 4)
    ensures j == StereoByte(i) ==> (j < 4 <==> i % 2 == 0) && i / 2 == 2 * (j % 4) + StereoShift(i) / 4
  {
    hide StereoByte, StereoShift;
    StereoMap(i);
    assert StereoByte(i) % 4 == i / 4 && StereoByte(i) / 4 == i % 2;
    assert i == 4 * (i / 4) + 2 * (i / 2 % 2) + i % 2;
  }

  /** The i-th code lands in bits of its byte that are still clear. */
  lemma PartialStep(left: seq<nibble>, right: seq<nibble>, i: nat, j: nat)
    requires |left| == |right| == 8 && i < 16 && j < 8
    ensures var code: int := if i % 2 == 0 then left[i / 2] else right[i / 2];
            var was: int, now: int := PartialByte(left, right, i, j), PartialByte(left, right, i + 1, j);
            if j != StereoByte(i) then now == was
            else if StereoShift(i) == 0 then was == 0 && now == code
            else was < 16 && now == was + 16 * code
  {
    hide StereoByte, StereoShift, Taken;
    Place(i, j);
    var codes := if j < 4 then left else right;
    TakenStep(4 * (j % 4) + j / 4, codes[2 * (j % 4)], codes[2 * (j % 4) + 1], i);
  }

  ghost predicate Filled(b: seq<byte>, dst: nat, left: seq<nibble>, right: seq<nibble>, i: nat)
    requires |left| == |right| == 8
  {
    dst + 8 <= |b| && forall j :: 0 <= j < 8 ==> b[dst + j] == PartialByte(left, right, i, j)
  }

  /** The i-th sample of a stereo unit is the next one of its channel. */
  lemma SampleOf(st: State, s: seq<int16>, i: nat)
    requires |s| == 16 && i < 16
    ensures var lane, c := Lane(s, i % 2), Get(st, i % 2);
            && Codes(c, lane)[i / 2] == EncodeSample(EncodeAt(c, lane, i / 2), s[i]).0
            && EncodeAt(c, lane, i / 2 + 1) == EncodeSample(EncodeAt(c, lane, i / 2), s[i]).1
  {
    hide EncodeSample;
    assert s[2 * (i / 2) + i % 2] == s[i];
  }

  /** The byte of a stereo unit that sample k comes from. */
  function ByteOf(k: nat): nat {
    k / 4 + 4 * (k % 2)
  }

  /** Byte i of a stereo unit gives two samples of its channel, two frames apart. */
  lemma SamplesOfByte(st: State, b: seq<byte>, i: nat)
    requires |b| == 8 && i < 8
    ensures var channel, k := i / 4, 2 * (i % 4);
            var codes, c := Split(if channel == 0 then b[..4] else b[4..]), Get(st, channel);
            var s := DecodeUnit(st, b, true).0;
            && DecodeAt(c, codes, k + 1) == DecodeSample(DecodeAt(c, codes, k), b[i] % 16)
            && DecodeAt(c, codes, k + 2) == DecodeSample(DecodeAt(c, codes, k + 1), b[i] / 16)
            && s[2 * k + channel] == DecodeAt(c, codes, k + 1).sample
            && s[2 * k + channel + 2] == DecodeAt(c, codes, k + 2).sample
  {
    hide DecodeSample, Split, Decoded, DecodeAt, Weave;
    var channel, k := i / 4, 2 * (i % 4);
    var half := if channel == 0 then b[..4] else b[4..];
    assert half[i % 4] == b[i];
    TwoOfRun(Get(st, channel), half, i % 4);
    var l, r := Decoded(st.left, Split(b[..4])), Decoded(st.right, Split(b[4..]));
    TwoOfWeave(l, r, channel, k);
  }

  lemma TwoOfRun(c: Channel, half: seq<byte>, j: nat)
    requires j < |half|
    ensures var codes := Split(half);
            && DecodeAt(c, codes, 2 * j + 1) == DecodeSample(DecodeAt(c, codes, 2 * j), half[j] % 16)
            && DecodeAt(c, codes, 2 * j + 2) == DecodeSample(DecodeAt(c, codes, 2 * j + 1), half[j] / 16)
            && Decoded(c, codes)[2 * j] == DecodeAt(c, codes, 2 * j + 1).sample
            && Decoded(c, codes)[2 * j + 1] == DecodeAt(c, codes, 2 * j + 2).sample
  {
    hide DecodeSample;
    assert Split(half)[2 * j] == half[j] % 16 && Split(half)[2 * j + 1] == half[j] / 16;
  }

  lemma TwoOfWeave(l: seq<int16>, r: seq<int16>, channel: nat, k: nat)
    requires |l| == |r| && channel < 2 && k + 1 < |l|
    ensures Weave(l, r)[2 * k + channel] == (if channel == 0 then l else r)[k]
    ensures Weave(l, r)[2 * k + channel + 2] == (if channel == 0 then l else r)[k + 1]
  {
    assert (2 * k + channel) / 2 == k && (2 * k + channel + 2) / 2 == k + 1;
  }

  /** The samples of the first i bytes stand in the buffer. */
  ghost predicate SomeStored(b: seq<byte>, dst: nat, s: seq<int16>, i: nat) {
    dst + 32 <= |b| && |s| == 16
    && forall k {:trigger s[k]} :: 0 <= k < 16 && ByteOf(k) < i ==> StoredSample(b, dst + 2 * k, s[k])
  }

  lemma MoreStored(before: seq<byte>, after: seq<byte>, dst: nat, s: seq<int16>, i: nat)
    requires i < 8 && SomeStored(before, dst, s, i) && |after| == |before|
    requires var at := dst + 8 * (i % 4) + 2 * (i / 4);
             && StoredSample(after, at, s[4 * (i % 4) + i / 4])
             && StoredSample(after, at + 4, s[4 * (i % 4) + i / 4 + 2])
             && forall j :: 0 <= j < |after| && j != at && j != at + 1 && j != at + 4 && j != at + 5
                 ==> after[j] == before[j]
    ensures SomeStored(after, dst, s, i + 1)
  {
    hide Unsigned16, ByteOf;
    forall k | 0 <= k < 16 && ByteOf(k) < i + 1
      ensures StoredSample(after, dst + 2 * k, s[k])
    {
      SamplePlace(k, i);
    }
  }

  lemma SamplePlace(k: nat, i: nat)
    requires k < 16 && i < 8
    ensures ByteOf(k) == i <==> k == 4 * (i % 4) + i / 4 || k == 4 * (i % 4) + i / 4 + 2
  {
  }

  lemma NoneStored(b: seq<byte>, dst: nat, s: seq<int16>)
    requires dst + 32 <= |b| && |s| == 16
    ensures SomeStored(b, dst, s, 0)
  {
  }

  lemma StaysStored(before: seq<byte>, after: seq<byte>, at: nat, x: int16)
    requires |before| == |after| && at + 2 <= |after| && before[at] == after[at] && before[at + 1] == after[at + 1]
    requires StoredSample(before, at, x)
    ensures StoredSample(after, at, x)
  {
  }

  lemma AllStored(b: seq<byte>, dst: nat, s: seq<int16>)
    requires SomeStored(b, dst, s, 8)
    ensures StoredAt(b, dst, s)
  {
    hide StoredSample;
  }

  // ----- the decoder's loop

  /** One turn of the decoder's loop. */
  lemma DecodeNext(st: State, b: seq<byte>, stereo: bool, bs: nat)
    requires bs > 0 && b != [] && DecodeFrom(st, b, stereo, bs).Some?
    ensures EnterBlock(st, b, stereo, bs).Some?
    ensures var (st1, b1) := EnterBlock(st, b, stereo, bs).value;
            var n := UnitBytes(stereo);
            && n <= |b1| && DecodeFrom(DecodeUnit(st1, b1[..n], stereo).1, b1[n..], stereo, bs).Some?
            && var (rest, st3) := DecodeFrom(DecodeUnit(st1, b1[..n], stereo).1, b1[n..], stereo, bs).value;
               DecodeFrom(st, b, stereo, bs).value == (DecodeUnit(st1, b1[..n], stereo).0 + rest, st3)
  {
    hide DecodeUnit, EnterBlock;
  }

  lemma DecodeNothing(st: State, stereo: bool, bs: nat)
    requires bs > 0
    ensures DecodeFrom(st, [], stereo, bs) == Some(([], st))
  {
  }

  lemma StartAt(c: Channel, codes: seq<nibble>)
    ensures DecodeAt(c, codes, 0) == c
  {
  }

  lemma NoSamples(b: seq<byte>)
    ensures StoredAt(b, 0, [])
  {
  }

  lemma StoredBoth(before: seq<byte>, after: seq<byte>, at: nat, s: seq<int16>, t: seq<int16>)
    requires StoredAt(before, at, s) && |after| == |before| && after[..at + 2 * |s|] == before[..at + 2 * |s|]
    requires StoredAt(after, at + 2 * |s|, t)
    ensures StoredAt(after, at, s + t)
  {
    hide Unsigned16;
    var end := at + 2 * |s|;
    forall k | 0 <= k < |s + t|
      ensures StoredSample(after, at + 2 * k, (s + t)[k])
    {
      if k < |s| {
        assert StoredSample(before, at + 2 * k, s[k]);
        assert before[at + 2 * k] == before[..end][at + 2 * k];
        assert before[at + 2 * k + 1] == before[..end][at + 2 * k + 1];
      } else {
        assert StoredSample(after, end + 2 * (k - |s|), t[k - |s|]);
      }
    }
  }

  class DspContext {
    const lastSample: array<int16>
    const lastStep: array<stepIndex>
    var buffer: array<byte>
    var size: nat

    ghost predicate Valid()
      reads this
    {
      && lastSample.Length == 2 && lastStep.Length == 2 && Admissible(buffer.Length)
      && (lastSample as object) != (lastStep as object)
      && (lastSample as object) != (buffer as object) && (lastStep as object) != (buffer as object)
    }

    ghost function State(): State
      reads this, lastSample, lastStep
      requires Valid()
    {
      ImaAdpcm.State.State(Channel(lastSample[0], lastStep[0]), Channel(lastSample[1], lastStep[1]))
    }

    /** freerdp_dsp_context_new: everything zero and no buffer yet. */
    constructor ()
      ensures Valid() && fresh(lastSample) && fresh(lastStep) && fresh(buffer)
      ensures State() == ImaAdpcm.State.State(Channel(0, 0), Channel(0, 0)) && buffer.Length == 0 && size == 0
    {
      lastSample := new int16[2](_ => 0);
      lastStep := new stepIndex[2](_ => 0);
      buffer := new byte[0];
      size := 0;
    }

    ghost function At(channel: nat): Channel
      reads this, lastSample, lastStep
      requires Valid() && channel < 2
    {
      Channel(lastSample[channel], lastStep[channel])
    }

    /** The clamp, the store and the step update that both sample routines end with. */
    method Advance(channel: nat, d: int, code: nibble)
      requires Valid() && channel < 2
      modifies lastSample, lastStep
      ensures At(channel) == Channel(Clamp16(d), NextStep(old(lastStep[channel]), code))
      ensures At(1 - channel) == old(At(1 - channel))
    {
      hide IndexChange;
      lastSample[channel] := if d < -32768 then -32768 else if d > 32767 then 32767 else d;
      var step := lastStep[channel] + IndexChange(code);
      lastStep[channel] := if step < 0 then 0 else if step > 88 then 88 else step;
    }

    /** dsp_decode_ima_adpcm_sample. */
    method DecodeSample(channel: nat, sample: nibble) returns (decoded: int16)
      requires Valid() && channel < 2
      modifies lastSample, lastStep
      ensures State() == Put(old(State()), channel, ImaAdpcm.DecodeSample(Get(old(State()), channel), sample))
      ensures decoded == Get(State(), channel).sample
    {
      hide StepSize, NextStep, Clamp16;
      var ss := StepSize(lastStep[channel]);
      var d: int := ss / 8;
      if sample % 2 == 1 { d := d + ss / 4; }
      if sample / 2 % 2 == 1 { d := d + ss / 2; }
      if sample / 4 % 2 == 1 { d := d + ss; }
      if sample >= 8 { d := -d; }
      assert At(channel) == Get(State(), channel);
      assert ImaAdpcm.DecodeSample(At(channel), sample)
          == Channel(Clamp16(lastSample[channel] + d), NextStep(lastStep[channel], sample));
      Advance(channel, lastSample[channel] + d, sample);
      decoded := lastSample[channel];
    }

    /** The three comparisons of the encoder, with the step halved in between. */
    method QuantizeSteps(e0: nat, ss0: nat) returns (enc: nibble, e: nat)
      ensures (enc, e) == Quantize(e0, ss0)
    {
      var ss := ss0;
      enc, e := 0, e0;
      if e >= ss {
        enc, e := 4, e - ss;
      }
      ss := ss / 2;
      if e >= ss {
        enc, e := enc + 2, e - ss;
      }
      ss := ss / 2;
      if e >= ss {
        enc, e := enc + 1, e - ss;
      }
    }

    /** dsp_encode_ima_adpcm_sample. */
    method EncodeSample(channel: nat, sample: int16) returns (enc: nibble)
      requires Valid() && channel < 2
      modifies lastSample, lastStep
      ensures State() == Put(old(State()), channel, ImaAdpcm.EncodeSample(Get(old(State()), channel), sample).1)
      ensures enc == ImaAdpcm.EncodeSample(Get(old(State()), channel), sample).0
    {
      hide StepSize, NextStep, Clamp16, Quantize;
      var ss := StepSize(lastStep[channel]);
      var d := sample - lastSample[channel];
      var diff := ss / 8;
      var code, e := QuantizeSteps(if d < 0 then -d else d, ss);
      if d < 0 { code := 8 + code; }
      diff := if d < 0 then d + e - diff else d - e + diff;
      enc := code;
      assert At(channel) == Get(State(), channel);
      assert ImaAdpcm.EncodeSample(At(channel), sample)
          == (enc, Channel(Clamp16(lastSample[channel] + diff), NextStep(lastStep[channel], enc)));
      Advance(channel, lastSample[channel] + diff, enc);
    }

    /** `dst[byte_num] |= encoded << byte_shift`, on bits that are still clear. */
    method PlaceCode(dst: nat, i: nat, encoded: nibble, ghost left: seq<nibble>, ghost right: seq<nibble>)
      requires Valid() && dst + 8 <= buffer.Length && i < 16 && |left| == |right| == 8
      requires encoded == if i % 2 == 0 then left[i / 2] else right[i / 2]
      requires Filled(buffer[..], dst, left, right, i)
      modifies buffer
      ensures buffer[..dst] == old(buffer[..dst])
      ensures Filled(buffer[..], dst, left, right, i + 1)
    {
      hide PartialByte, StereoByte, StereoShift;
      StereoMap(i);
      PartialStep(left, right, i, StereoByte(i));
      var at := dst + StereoByte(i);
      if StereoShift(i) == 0 {
        buffer[at] := encoded;
      } else {
        buffer[at] := 16 * encoded + buffer[at];
      }
      ghost var next := i + 1;
      forall j | 0 <= j < 8 ensures buffer[dst + j] == PartialByte(left, right, next, j) {
        PartialStep(left, right, i, j);
      }
    }

    /** The eight bytes of a stereo unit, for samples in the order left, right. */
    method EncodeStereo(src: seq<byte>, sp: nat, dst: nat, ghost s: seq<int16>)
      requires Valid() && sp + 32 <= |src| && dst + 8 <= buffer.Length
      requires |s| == 16 && forall k :: 0 <= k < 16 ==> s[k] == Int16At(src[sp + 2 * k], src[sp + 2 * k + 1])
      modifies lastSample, lastStep, buffer
      ensures (buffer[dst..dst + 8], State()) == EncodeUnit(old(State()), s, true)
      ensures buffer[..dst] == old(buffer[..dst])
    {
      hide ImaAdpcm.EncodeSample, Int16At, StereoByte, StereoShift, PartialByte, Pair, Codes, Lane;
      ghost var st := State();
      ghost var l, r := Lane(s, 0), Lane(s, 1);
      ghost var cl, cr := Codes(st.left, l), Codes(st.right, r);
      forall j | 0 <= j < 8 ensures PartialByte(cl, cr, 0, j) == 0 {
        PartialStart(cl, cr, j);
      }
      forall j | dst <= j < dst + 8 {
        buffer[j] := 0;
      }
      var i := 0;
      while i < 16
        invariant 0 <= i <= 16 && buffer[..dst] == old(buffer[..dst])
        invariant State() == ImaAdpcm.State.State(EncodeAt(st.left, l, (i + 1) / 2), EncodeAt(st.right, r, i / 2))
        invariant Filled(buffer[..], dst, cl, cr, i)
      {
        var encoded := EncodeSample(i % 2, Int16At(src[sp + 2 * i], src[sp + 2 * i + 1]));
        SampleOf(st, s, i);
        assert encoded == (if i % 2 == 0 then cl[i / 2] else cr[i / 2]);
        PlaceCode(dst, i, encoded, cl, cr);
        i := i + 1;
      }
      forall j | 0 <= j < 8 ensures buffer[dst + j] == (Pair(cl) + Pair(cr))[j] {
        PartialStart(cl, cr, j);
      }
      assert buffer[dst..dst + 8] == Pair(cl) + Pair(cr);
    }

    method PutSample(at: nat, x: int16)
      requires Valid() && at + 2 <= buffer.Length
      modifies buffer
      ensures StoredSample(buffer[..], at, x)
      ensures forall j :: 0 <= j < buffer.Length && j != at && j != at + 1 ==> buffer[j] == old(buffer[j])
    {
      buffer[at], buffer[at + 1] := Unsigned16(x) % 256, Unsigned16(x) / 256;
    }

    /** The eight bytes of a stereo unit, back to sixteen samples. */
    method DecodeStereo(src: seq<byte>, sp: nat, dst: nat)
      requires Valid() && sp + 8 <= |src| && dst + 32 <= buffer.Length
      modifies lastSample, lastStep, buffer
      ensures StoredAt(buffer[..], dst, DecodeUnit(old(State()), src[sp..sp + 8], true).0)
      ensures State() == DecodeUnit(old(State()), src[sp..sp + 8], true).1
      ensures buffer[..dst] == old(buffer[..dst])
    {
      hide ImaAdpcm.DecodeSample, Split, Decoded, Weave, ByteOf, StoredSample, Unsigned16, SomeStored;
      ghost var st, b := State(), src[sp..sp + 8];
      ghost var l, r, s := Split(b[..4]), Split(b[4..]), DecodeUnit(st, b, true).0;
      NoneStored(buffer[..], dst, s);
      var i := 0;
      while i < 8
        invariant 0 <= i <= 8 && buffer[..dst] == old(buffer[..dst]) && SomeStored(buffer[..], dst, s, i)
        invariant State() == ImaAdpcm.State.State(DecodeAt(st.left, l, if i < 4 then 2 * i else 8),
                                                  DecodeAt(st.right, r, if i < 4 then 0 else 2 * (i - 4)))
      {
        ghost var before := buffer[..];
        SamplesOfByte(st, b, i);
        var channel := if i < 4 then 0 else 1;
        var at := dst + 8 * (i % 4) + 2 * channel;
        var decoded := DecodeSample(channel, src[sp + i] % 16);
        PutSample(at, decoded);
        ghost var half := buffer[..];
        decoded := DecodeSample(channel, src[sp + i] / 16);
        PutSample(at + 4, decoded);
        StaysStored(half, buffer[..], at, s[4 * (i % 4) + i / 4]);
        MoreStored(before, buffer[..], dst, s, i);
        i := i + 1;
      }
      AllStored(buffer[..], dst, s);
    }

    /** Four header bytes of one channel. */
    method WriteHeader(dst: nat, channel: nat)
      requires Valid() && channel < 2 && dst + 4 <= buffer.Length
      modifies buffer
      ensures buffer[..dst + 4] == old(buffer[..dst]) + ChannelHeader(Get(State(), channel))
    {
      PutSample(dst, lastSample[channel]);
      buffer[dst + 2], buffer[dst + 3] := lastStep[channel], 0;
    }

    /** `*dst++ = encoded` for two samples of a mono stream. */
    method EncodeMono(src: seq<byte>, sp: nat, dst: nat, ghost s: seq<int16>)
      requires Valid() && sp + 4 <= |src| && dst < buffer.Length
      requires |s| == 2 && s[0] == Int16At(src[sp], src[sp + 1]) && s[1] == Int16At(src[sp + 2], src[sp + 3])
      modifies lastSample, lastStep, buffer
      ensures ([buffer[dst]], State()) == EncodeUnit(old(State()), s, false)
      ensures buffer[..dst] == old(buffer[..dst])
    {
      hide ImaAdpcm.EncodeSample, Int16At;
      ghost var c := State().left;
      var encoded := EncodeSample(0, Int16At(src[sp], src[sp + 1]));
      var second := EncodeSample(0, Int16At(src[sp + 2], src[sp + 3]));
      buffer[dst] := PairByte(encoded, second);
      assert EncodeAt(c, s, 0) == c && EncodeAt(c, s, 1) == ImaAdpcm.EncodeSample(c, s[0]).1;
      assert Codes(c, s)[0] == encoded && Codes(c, s)[1] == second;
      assert Pair(Codes(c, s)) == [buffer[dst]];
    }

    /** freerdp_dsp_encode_ima_adpcm, on input it does not outgrow its buffer with: by EstimateSufficesIff
        that is every stereo input and every mono input in blocks of at least nine bytes. */
    method Encode(src: seq<byte>, channels: nat, blockSize: nat)
      requires Valid() && blockSize > 0 && WholeUnits(src, channels)
      requires |EncodeFrom(State(), Samples(src), channels > 1, blockSize, 0).0| <= Grown(buffer.Length, |Samples(src)|)
      modifies this, buffer, lastSample, lastStep
      ensures Valid() && size <= buffer.Length && (buffer == old(buffer) || fresh(buffer))
      ensures (buffer[..size], State()) == EncodeFrom(old(State()), Samples(src), channels > 1, blockSize, 0)
    {
      hide EncodeFrom, EncodeUnit, BlockHeader, Int16At, Samples, FirstUnit, AfterUnit;
      ghost var stereo, samples := channels > 1, Samples(src);
      if |src| / 2 > buffer.Length {
        buffer := new byte[|src| / 2 + 1024];
      }
      ghost var goal := EncodeFrom(State(), samples, stereo, blockSize, 0);
      var sp: nat, dst: nat := 0, 0;
      ghost var n: nat := 0;
      assert samples[0..] == samples && buffer[..0] + goal.0 == goal.0;
      while sp < |src|
        invariant sp == 2 * n && n <= |samples| && Whole(samples[n..], stereo) && Valid()
        invariant buffer == old(buffer) || fresh(buffer)
        invariant dst <= buffer.Length && |goal.0| <= buffer.Length
        invariant goal == EncodedAfter(buffer[..dst], EncodeFrom(State(), samples[n..], stereo, blockSize, dst))
      {
        EncodeNext(State(), samples[n..], stereo, blockSize, dst, buffer[..dst]);
        UnitAt(src, n, stereo);
        dst := OpenBlock(dst, channels, blockSize);
        sp, dst := EncodeOne(src, sp, dst, channels, FirstUnit(samples[n..], stereo));
        n := n + UnitSamples(stereo);
      }
      assert samples[n..] == [] && buffer[..dst] + [] == buffer[..dst];
      EncodeNothing(State(), stereo, blockSize, dst);
      size := dst;
    }

    /** The header test of the encoder. */
    method OpenBlock(dst0: nat, channels: nat, blockSize: nat) returns (dst: nat)
      requires Valid() && blockSize > 0 && dst0 + |BlockHeader(State(), channels > 1, blockSize, dst0)| <= buffer.Length
      modifies buffer
      ensures dst == dst0 + |BlockHeader(State(), channels > 1, blockSize, dst0)|
      ensures buffer[..dst] == old(buffer[..dst0]) + BlockHeader(State(), channels > 1, blockSize, dst0)
    {
      hide ChannelHeader;
      dst := dst0;
      if dst % blockSize == 0 {
        WriteHeader(dst, 0);
        dst := dst + 4;
        if channels > 1 {
          WriteHeader(dst, 1);
          dst := dst + 4;
        }
      }
    }

    /** One data unit. */
    method EncodeOne(src: seq<byte>, sp0: nat, dst0: nat, channels: nat, ghost s: seq<int16>)
        returns (sp: nat, dst: nat)
      requires Valid() && |s| == UnitSamples(channels > 1) && sp0 + 2 * |s| <= |src|
          && dst0 + UnitBytes(channels > 1) <= buffer.Length
      requires forall k :: 0 <= k < |s| ==> s[k] == Int16At(src[sp0 + 2 * k], src[sp0 + 2 * k + 1])
      modifies lastSample, lastStep, buffer
      ensures sp == sp0 + 2 * |s| && dst == dst0 + UnitBytes(channels > 1)
      ensures State() == EncodeUnit(old(State()), s, channels > 1).1
      ensures buffer[..dst] == old(buffer[..dst0]) + EncodeUnit(old(State()), s, channels > 1).0
    {
      hide EncodeUnit, Int16At;
      if channels > 1 {
        EncodeStereo(src, sp0, dst0, s);
        sp, dst := sp0 + 32, dst0 + 8;
        assert buffer[..dst] == buffer[..dst0] + buffer[dst0..dst0 + 8];
      } else {
        EncodeMono(src, sp0, dst0, s);
        sp, dst := sp0 + 4, dst0 + 1;
        assert buffer[..dst] == buffer[..dst0] + [buffer[dst0]];
      }
    }

    /** The header test of the decoder. */
    method EnterBlock(src: seq<byte>, sp0: nat, channels: nat, blockSize: nat) returns (sp: nat)
      requires Valid() && blockSize > 0 && sp0 <= |src|
      requires ImaAdpcm.EnterBlock(State(), src[sp0..], channels > 1, blockSize).Some?
      modifies lastSample, lastStep
      ensures sp0 <= sp <= |src|
      ensures ImaAdpcm.EnterBlock(old(State()), src[sp0..], channels > 1, blockSize) == Some((State(), src[sp..]))
    {
      hide Int16At;
      sp := sp0;
      if (|src| - sp) % blockSize == 0 {
        lastSample[0] := Int16At(src[sp], src[sp + 1]);
        lastStep[0] := src[sp + 2];
        sp := sp + 4;
        if channels > 1 {
          lastSample[1] := Int16At(src[sp], src[sp + 1]);
          lastStep[1] := src[sp + 2];
          sp := sp + 4;
        }
      }
    }

    /** One byte of a mono stream. */
    method DecodeMono(src: seq<byte>, sp: nat, dst: nat)
      requires Valid() && sp < |src| && dst + 4 <= buffer.Length
      modifies lastSample, lastStep, buffer
      ensures StoredAt(buffer[..], dst, DecodeUnit(old(State()), [src[sp]], false).0)
      ensures State() == DecodeUnit(old(State()), [src[sp]], false).1
      ensures buffer[..dst] == old(buffer[..dst])
    {
      hide ImaAdpcm.DecodeSample, Split, Decoded, StoredSample, DecodeAt;
      TwoOfRun(State().left, [src[sp]], 0);
      StartAt(State().left, Split([src[sp]]));
      var decoded := DecodeSample(0, src[sp] % 16);
      PutSample(dst, decoded);
      ghost var half, first := buffer[..], decoded;
      decoded := DecodeSample(0, src[sp] / 16);
      PutSample(dst + 2, decoded);
      StaysStored(half, buffer[..], dst, first);
    }

    /** One turn of the decoder's loop. */
    method DecodeTurn(src: seq<byte>, sp0: nat, channels: nat, blockSize: nat, dst0: nat)
        returns (sp: nat, dst: nat, ghost unit: seq<int16>)
      requires Valid() && blockSize > 0 && sp0 < |src| && DecodeFrom(State(), src[sp0..], channels > 1, blockSize).Some?
      requires dst0 + 4 * (|src| - sp0) <= buffer.Length
      modifies buffer, lastSample, lastStep
      ensures sp0 < sp <= |src| && dst == dst0 + 2 * |unit| <= dst0 + 4 * (sp - sp0)
      ensures DecodeFrom(State(), src[sp..], channels > 1, blockSize).Some?
      ensures var (rest, last) := DecodeFrom(State(), src[sp..], channels > 1, blockSize).value;
              DecodeFrom(old(State()), src[sp0..], channels > 1, blockSize).value == (unit + rest, last)
      ensures StoredAt(buffer[..], dst0, unit) && buffer[..dst0] == old(buffer[..dst0])
    {
      hide DecodeFrom, DecodeUnit, ImaAdpcm.EnterBlock, StoredAt;
      DecodeNext(State(), src[sp0..], channels > 1, blockSize);
      sp := EnterBlock(src, sp0, channels, blockSize);
      ghost var n := UnitBytes(channels > 1);
      unit := DecodeUnit(State(), src[sp..][..n], channels > 1).0;
      assert src[sp..][..n] == src[sp..sp + n] && src[sp..][n..] == src[sp + n..];
      if channels > 1 {
        DecodeStereo(src, sp, dst0);
        dst, sp := dst0 + 32, sp + 8;
      } else {
        assert src[sp..sp + 1] == [src[sp]];
        DecodeMono(src, sp, dst0);
        dst, sp := dst0 + 4, sp + 1;
      }
    }

    /** freerdp_dsp_decode_ima_adpcm on a stream it does not run off. */
    method Decode(src: seq<byte>, channels: nat, blockSize: nat)
      requires Valid() && blockSize > 0 && DecodeFrom(State(), src, channels > 1, blockSize).Some?
      modifies this, buffer, lastSample, lastStep
      ensures Valid() && size <= buffer.Length && (buffer == old(buffer) || fresh(buffer))
      ensures var (samples, st) := DecodeFrom(old(State()), src, channels > 1, blockSize).value;
              size == 2 * |samples| && StoredAt(buffer[..], 0, samples) && State() == st
    {
      hide DecodeFrom, DecodeUnit, ImaAdpcm.EnterBlock, StoredAt;
      ghost var stereo := channels > 1;
      if 4 * |src| > buffer.Length {
        buffer := new byte[4 * |src| + 1024];
      }
      ghost var (goal, last) := DecodeFrom(State(), src, stereo, blockSize).value;
      ghost var done, rest := [], goal;
      var sp: nat, dst: nat := 0, 0;
      assert src[0..] == src && [] + goal == goal;
      NoSamples(buffer[..]);
      while sp < |src|
        invariant sp <= |src| && Valid() && (buffer == old(buffer) || fresh(buffer))
        invariant DecodeFrom(State(), src[sp..], stereo, blockSize) == Some((rest, last))
        invariant goal == done + rest && dst == 2 * |done| && dst + 4 * (|src| - sp) <= buffer.Length
        invariant StoredAt(buffer[..], 0, done)
        decreases |src| - sp
      {
        ghost var before := buffer[..];
        ghost var unit;
        sp, dst, unit := DecodeTurn(src, sp, channels, blockSize, dst);
        StoredBoth(before, buffer[..], 0, done, unit);
        rest := rest[|unit|..];
        assert done + (unit + rest) == done + unit + rest;
        done := done + unit;
      }
      assert src[sp..] == [];
      DecodeNothing(State(), stereo, blockSize);
      assert done == goal;
      size := dst;
    }
  }
}
