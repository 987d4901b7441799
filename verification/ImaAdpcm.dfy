/** IMA ADPCM on values: the sample quantizer, the block stream and why a decoder that starts at a
    block header stays in step with the encoder (libfreerdp/codec/dsp.c). */
module ImaAdpcm {
  import opened Basics
  import opened Bits

  type int16 = x: int | -32768 <= x <= 32767
  type nibble = x: int | 0 <= x < 16
  type stepIndex = x: int | 0 <= x <= 88

  /** last_sample and last_step of one channel. */
  datatype Channel = Channel(sample: int16, step: stepIndex)

  /** Both channels; a mono stream uses the left one. */
  datatype State = State(left: Channel, right: Channel)

  // ----- samples

  /** ima_step_index_table. */
  function IndexChange(code: nibble): int {
    [-1, -1, -1, -1, 2, 4, 6, 8, -1, -1, -1, -1, 2, 4, 6, 8][code]
  }

  /** ima_step_size_table. */
  function StepSize(step: stepIndex): (ss: nat)
    ensures 7 <= ss <= 32767
  {
    if step < 10 then [7, 8, 9, 10, 11, 12, 13, 14, 16, 17][step]
    else if step < 20 then [19, 21, 23, 25, 28, 31, 34, 37, 41, 45][step - 10]
    else if step < 30 then [50, 55, 60, 66, 73, 80, 88, 97, 107, 118][step - 20]
    else if step < 40 then [130, 143, 157, 173, 190, 209, 230, 253, 279, 307][step - 30]
    else if step < 50 then [337, 371, 408, 449, 494, 544, 598, 658, 724, 796][step - 40]
    else if step < 60 then [876, 963, 1060, 1166, 1282, 1411, 1552, 1707, 1878, 2066][step - 50]
    else if step < 70 then [2272, 2499, 2749, 3024, 3327, 3660, 4026, 4428, 4871, 5358][step - 60]
    else if step < 80 then [5894, 6484, 7132, 7845, 8630, 9493, 10442, 11487, 12635, 13899][step - 70]
    else [15289, 16818, 18500, 20350, 22385, 24623, 27086, 29794, 32767][step - 80]
  }

  function Clamp16(x: int): int16 {
    if x < -32768 then -32768 else if x > 32767 then 32767 else x
  }

  function NextStep(step: stepIndex, code: nibble): stepIndex {
    var s := step + IndexChange(code);
    if s < 0 then 0 else if s > 88 then 88 else s
  }

  /** dsp_decode_ima_adpcm_sample. */
  function DecodeSample(c: Channel, code: nibble): Channel {
    var ss := StepSize(c.step);
    var d := ss / 8 + (if code % 2 == 1 then ss / 4 else 0) + (if code / 2 % 2 == 1 then ss / 2 else 0)
             + (if code / 4 % 2 == 1 then ss else 0);
    Channel(Clamp16(c.sample + if code >= 8 then -d else d), NextStep(c.step, code))
  }

  /** The three comparisons of the encoder: the code of a magnitude and what is left of it. */
  function Quantize(e: nat, ss: nat): (r: (nibble, nat))
    ensures r.0 < 8
  {
    var (b4, e4) := if e >= ss then (4, e - ss) else (0, e);
    var (b2, e2) := if e4 >= ss / 2 then (2, e4 - ss / 2) else (0, e4);
    var (b1, e1) := if e2 >= ss / 2 / 2 then (1, e2 - ss / 2 / 2) else (0, e2);
    (b4 + b2 + b1, e1)
  }

  /** dsp_encode_ima_adpcm_sample: the code and the channel after it. */
  function EncodeSample(c: Channel, sample: int16): (r: (nibble, Channel)) {
    var ss := StepSize(c.step);
    var d := sample - c.sample;
    var (q, e) := Quantize(if d < 0 then -d else d, ss);
    var code: nibble := if d < 0 then 8 + q else q;
    var diff := if d < 0 then d + e - ss / 8 else d - e + ss / 8;
    (code, Channel(Clamp16(c.sample + diff), NextStep(c.step, code)))
  }

  /** The decoder's channel after a code is the encoder's after producing it. */
  lemma Lockstep(c: Channel, sample: int16)
    ensures DecodeSample(c, EncodeSample(c, sample).0) == EncodeSample(c, sample).1
  {
    hide StepSize, NextStep, Quantize;
    var ss, d := StepSize(c.step), sample - c.sample;
    var e := if d < 0 then -d else d;
    TakenBits(e, ss);
    SignBit(Quantize(e, ss).0);
  }

  lemma SignBit(q: nibble)
    requires q < 8
    ensures (8 + q) % 8 == q % 8 == q && (8 + q) % 2 == q % 2
    ensures (8 + q) / 2 % 2 == q / 2 % 2 && (8 + q) / 4 % 2 == q / 4 % 2
  {
  }

  /** The bits of the code say exactly what was subtracted from the magnitude. */
  lemma TakenBits(e: nat, ss: nat)
    ensures var (q, rest) := Quantize(e, ss);
            rest <= e && e - rest == (if q % 2 == 1 then ss / 4 else 0) + (if q / 2 % 2 == 1 then ss / 2 else 0)
                                     + (if q / 4 % 2 == 1 then ss else 0)
  {
  }

  function Distance(a: int, b: int): nat {
    if a < b then b - a else a - b
  }

  /** A sample within two steps of the prediction is reproduced to an eighth of a step; one further
      away gets the largest code and the prediction moves at least a whole step towards it. */
  lemma QuantizerError(c: Channel, sample: int16)
    ensures var ss := StepSize(c.step);
            var (code, c') := EncodeSample(c, sample);
            && (Distance(sample, c.sample) < 2 * ss ==> Distance(sample, c'.sample) <= ss / 8 + 2)
            && (Distance(sample, c.sample) >= 2 * ss ==>
                  code % 8 == 7 && Distance(sample, c'.sample) <= Distance(sample, c.sample) - ss)
  {
    hide StepSize, NextStep, Quantize;
    var ss, d := StepSize(c.step), sample - c.sample;
    var e := if d < 0 then -d else d;
    RestBound(e, ss);
    SignBit(Quantize(e, ss).0);
  }

  lemma RestBound(e: nat, ss: nat)
    requires ss >= 7
    ensures var (q, rest) := Quantize(e, ss);
            && rest <= e && (e < 2 * ss ==> rest <= ss / 8 + ss / 8 + 2)
            && (e >= 2 * ss ==> q == 7 && rest == e - ss - ss / 2 - ss / 4 && ss / 8 <= rest)
  {
  }

  // ----- runs of samples on one channel

  /** The channel after k samples. */
  function EncodeAt(c: Channel, s: seq<int16>, k: nat): Channel
    requires k <= |s|
  {
    if k == 0 then c else EncodeSample(EncodeAt(c, s, k - 1), s[k - 1]).1
  }

  function Codes(c: Channel, s: seq<int16>): (r: seq<nibble>)
    ensures |r| == |s|
  {
    seq(|s|, k requires 0 <= k < |s| => EncodeSample(EncodeAt(c, s, k), s[k]).0)
  }

  /** The sample the encoder reconstructs for sample k. */
  function HeardAt(c: Channel, s: seq<int16>, k: nat): int16
    requires k < |s|
  {
    EncodeAt(c, s, k + 1).sample
  }

  /** The samples the encoder itself reconstructs. */
  function Reconstructed(c: Channel, s: seq<int16>): (r: seq<int16>)
    ensures |r| == |s|
  {
    seq(|s|, k requires 0 <= k < |s| => HeardAt(c, s, k))
  }

  function DecodeAt(c: Channel, codes: seq<nibble>, k: nat): Channel
    requires k <= |codes|
  {
    if k == 0 then c else DecodeSample(DecodeAt(c, codes, k - 1), codes[k - 1])
  }

  function Decoded(c: Channel, codes: seq<nibble>): (r: seq<int16>)
    ensures |r| == |codes|
  {
    seq(|codes|, k requires 0 <= k < |codes| => DecodeAt(c, codes, k + 1).sample)
  }

  lemma {:induction false} LockstepAt(c: Channel, s: seq<int16>, k: nat)
    requires k <= |s|
    ensures DecodeAt(c, Codes(c, s), k) == EncodeAt(c, s, k)
  {
    hide EncodeSample, DecodeSample;
    if k > 0 {
      LockstepAt(c, s, k - 1);
      Lockstep(EncodeAt(c, s, k - 1), s[k - 1]);
    }
  }

  lemma LockstepRun(c: Channel, s: seq<int16>)
    ensures Decoded(c, Codes(c, s)) == Reconstructed(c, s)
    ensures DecodeAt(c, Codes(c, s), |s|) == EncodeAt(c, s, |s|)
  {
    hide EncodeAt, DecodeAt, Codes;
    LockstepAt(c, s, |s|);
    forall k | 0 <= k < |s|
      ensures Decoded(c, Codes(c, s))[k] == Reconstructed(c, s)[k]
    {
      LockstepAt(c, s, k + 1);
    }
  }

  // ----- codes in bytes, channels in frames

  function PairByte(low: nibble, high: nibble): byte {
    var b: int := high;
    16 * b + low
  }

  /** Two codes to a byte, the first in the low nibble. */
  function Pair(codes: seq<nibble>): (b: seq<byte>)
    requires |codes| % 2 == 0
    ensures |b| == |codes| / 2
  {
    seq(|codes| / 2, j requires 0 <= j < |codes| / 2 => PairByte(codes[2 * j], codes[2 * j + 1]))
  }

  function Split(b: seq<byte>): (codes: seq<nibble>)
    ensures |codes| == 2 * |b|
  {
    seq(2 * |b|, k requires 0 <= k < 2 * |b| => if k % 2 == 0 then b[k / 2] % 16 else b[k / 2] / 16)
  }

  lemma SplitPair(codes: seq<nibble>)
    requires |codes| % 2 == 0
    ensures Split(Pair(codes)) == codes
  {
  }

  /** The samples of one of two interleaved channels. */
  function Lane(s: seq<int16>, channel: nat): (r: seq<int16>)
    requires |s| % 2 == 0 && channel < 2
    ensures |r| == |s| / 2
  {
    seq(|s| / 2, k requires 0 <= k < |s| / 2 => s[2 * k + channel])
  }

  function Weave(left: seq<int16>, right: seq<int16>): (r: seq<int16>)
    requires |left| == |right|
    ensures |r| == 2 * |left|
  {
    seq(2 * |left|, i requires 0 <= i < 2 * |left| => if i % 2 == 0 then left[i / 2] else right[i / 2])
  }

  // ----- one data unit: one byte of mono, eight of stereo

  function UnitSamples(stereo: bool): nat {
    if stereo then 16 else 2
  }

  /** The source's `size` counts whole units. */
  predicate Whole(s: seq<int16>, stereo: bool) {
    if stereo then |s| % 16 == 0 else |s| % 2 == 0
  }

  function FirstUnit(s: seq<int16>, stereo: bool): (r: seq<int16>)
    requires Whole(s, stereo) && s != []
    ensures |r| == UnitSamples(stereo)
  {
    if stereo then s[..16] else s[..2]
  }

  lemma OneUnitLess(n: nat)
    ensures n % 16 == 0 && n > 0 ==> n >= 16 && (n - 16) % 16 == 0
    ensures n % 2 == 0 && n > 0 ==> n >= 2 && (n - 2) % 2 == 0
  {
  }

  function AfterUnit(s: seq<int16>, stereo: bool): (r: seq<int16>)
    requires Whole(s, stereo) && s != []
    ensures Whole(r, stereo) && |r| == |s| - UnitSamples(stereo)
  {
    OneUnitLess(|s|);
    if stereo then s[16..] else s[2..]
  }

  function UnitBytes(stereo: bool): nat {
    if stereo then 8 else 1
  }

  function EncodeUnit(st: State, s: seq<int16>, stereo: bool): (r: (seq<byte>, State))
    requires |s| == UnitSamples(stereo)
    ensures |r.0| == UnitBytes(stereo)
  {
    if stereo then
      var l, r := Lane(s, 0), Lane(s, 1);
      (Pair(Codes(st.left, l)) + Pair(Codes(st.right, r)), State(EncodeAt(st.left, l, 8), EncodeAt(st.right, r, 8)))
    else
      (Pair(Codes(st.left, s)), st.(left := EncodeAt(st.left, s, 2)))
  }

  function ReconstructUnit(st: State, s: seq<int16>, stereo: bool): (r: seq<int16>)
    requires |s| == UnitSamples(stereo)
    ensures |r| == |s|
  {
    if stereo then Weave(Reconstructed(st.left, Lane(s, 0)), Reconstructed(st.right, Lane(s, 1)))
    else Reconstructed(st.left, s)
  }

  function DecodeUnit(st: State, b: seq<byte>, stereo: bool): (r: (seq<int16>, State))
    requires |b| == UnitBytes(stereo)
    ensures |r.0| == UnitSamples(stereo)
  {
    if stereo then
      var l, r := Split(b[..4]), Split(b[4..]);
      (Weave(Decoded(st.left, l), Decoded(st.right, r)), State(DecodeAt(st.left, l, 8), DecodeAt(st.right, r, 8)))
    else
      (Decoded(st.left, Split(b)), st.(left := DecodeAt(st.left, Split(b), 2)))
  }

  /** The channels in use agree. */
  predicate Agree(a: State, b: State, stereo: bool) {
    a.left == b.left && (stereo ==> a.right == b.right)
  }

  lemma UnitRoundTrip(a: State, b: State, s: seq<int16>, stereo: bool)
    requires |s| == UnitSamples(stereo) && Agree(a, b, stereo)
    ensures DecodeUnit(b, EncodeUnit(a, s, stereo).0, stereo).0 == ReconstructUnit(a, s, stereo)
    ensures Agree(EncodeUnit(a, s, stereo).1, DecodeUnit(b, EncodeUnit(a, s, stereo).0, stereo).1, stereo)
  {
    hide Pair, Split, Codes, EncodeAt, DecodeAt, Decoded, Reconstructed, Lane, Weave;
    if stereo {
      var l, r := Codes(a.left, Lane(s, 0)), Codes(a.right, Lane(s, 1));
      assert (Pair(l) + Pair(r))[..4] == Pair(l) && (Pair(l) + Pair(r))[4..] == Pair(r);
      SplitPair(l);
      SplitPair(r);
      LockstepRun(a.left, Lane(s, 0));
      LockstepRun(a.right, Lane(s, 1));
    } else {
      SplitPair(Codes(a.left, s));
      LockstepRun(a.left, s);
    }
  }

  // ----- block headers

  function Unsigned16(x: int16): (u: nat)
    ensures u < 65536
  {
    if x < 0 then x + 65536 else x
  }

  function Signed16(u: nat): int16
    requires u < 65536
  {
    if u >= 32768 then u - 65536 else u
  }

  /** The INT16 stored in two bytes, low byte first. */
  function Int16At(lo: byte, hi: byte): int16 {
    Signed16(lo + 256 * hi)
  }

  function ChannelHeader(c: Channel): (b: seq<byte>)
    ensures |b| == 4
  {
    [Unsigned16(c.sample) % 256, Unsigned16(c.sample) / 256, c.step, 0]
  }

  function HeaderBytes(stereo: bool): nat {
    if stereo then 8 else 4
  }

  function Header(st: State, stereo: bool): (b: seq<byte>)
    ensures |b| == HeaderBytes(stereo)
  {
    if stereo then ChannelHeader(st.left) + ChannelHeader(st.right) else ChannelHeader(st.left)
  }

  /** The state a block header sets, or None for a step outside the step table. */
  function ReadHeader(st: State, b: seq<byte>, stereo: bool): Option<State>
    requires |b| == HeaderBytes(stereo)
  {
    if b[2] > 88 || (stereo && b[6] > 88) then None
    else
      var left := Channel(Int16At(b[0], b[1]), b[2]);
      Some(if stereo then State(left, Channel(Int16At(b[4], b[5]), b[6])) else st.(left := left))
  }

  lemma HeaderRoundTrip(a: State, b: State, stereo: bool)
    ensures var r := ReadHeader(b, Header(a, stereo), stereo);
            r.Some? && Agree(a, r.value, stereo)
  {
  }

  // ----- the stream

  /** What opens a block: a header when the bytes written so far fill whole blocks. */
  function BlockHeader(st: State, stereo: bool, blockSize: nat, written: nat): seq<byte>
    requires blockSize > 0
  {
    if written % blockSize == 0 then Header(st, stereo) else []
  }

  /** freerdp_dsp_encode_ima_adpcm with `written` bytes already in the buffer. */
  function EncodeFrom(st: State, s: seq<int16>, stereo: bool, blockSize: nat, written: nat): (r: (seq<byte>, State))
    requires blockSize > 0 && Whole(s, stereo)
    decreases |s|
  {
    if s == [] then ([], st)
    else
      var header := BlockHeader(st, stereo, blockSize, written);
      var (unit, st1) := EncodeUnit(st, FirstUnit(s, stereo), stereo);
      var (rest, st2) := EncodeFrom(st1, AfterUnit(s, stereo), stereo, blockSize, written + |header| + |unit|);
      (header + unit + rest, st2)
  }

  /** What the encoder's own reconstruction of the whole stream sounds like. */
  function ReconstructFrom(st: State, s: seq<int16>, stereo: bool): (r: seq<int16>)
    requires Whole(s, stereo)
    ensures |r| == |s|
    decreases |s|
  {
    if s == [] then []
    else
      ReconstructUnit(st, FirstUnit(s, stereo), stereo)
          + ReconstructFrom(EncodeUnit(st, FirstUnit(s, stereo), stereo).1, AfterUnit(s, stereo), stereo)
  }

  /** freerdp_dsp_decode_ima_adpcm, or None where the C code would read past its input or its step
      table. */
  function DecodeFrom(st: State, b: seq<byte>, stereo: bool, blockSize: nat): (r: Option<(seq<int16>, State)>)
    requires blockSize > 0
    ensures r.Some? ==> |r.value.0| <= 2 * |b|
    decreases |b|
  {
    if b == [] then Some(([], st))
    else
      match EnterBlock(st, b, stereo, blockSize)
      case None => None
      case Some((st1, b1)) =>
        var n := UnitBytes(stereo);
        if |b1| < n then None
        else
          var (samples, st2) := DecodeUnit(st1, b1[..n], stereo);
          match DecodeFrom(st2, b1[n..], stereo, blockSize)
          case None => None
          case Some((rest, st3)) => Some((samples + rest, st3))
  }

  /** The block header test of the decoder, on the bytes that remain. */
  function EnterBlock(st: State, b: seq<byte>, stereo: bool, blockSize: nat): (r: Option<(State, seq<byte>)>)
    requires blockSize > 0
    ensures r.Some? ==> |r.value.1| <= |b|
  {
    var h := HeaderBytes(stereo);
    if |b| % blockSize != 0 then Some((st, b))
    else if |b| < h then None
    else
      match ReadHeader(st, b[..h], stereo)
      case None => None
      case Some(st1) => Some((st1, b[h..]))
  }

  /** The encoder counts from the front of the stream and the decoder from its end. */
  lemma SameBlock(w: nat, n: nat, bs: nat)
    requires bs > 0 && (w + n) % bs == 0
    ensures w % bs == 0 <==> n % bs == 0
  {
    if w % bs == 0 {
      Multiple(w, w + n, bs);
    } else if n % bs == 0 {
      Multiple(n, w + n, bs);
    }
  }

  lemma Multiple(a: nat, b: nat, bs: nat)
    requires bs > 0 && a <= b && a % bs == 0 && b % bs == 0
    ensures (b - a) % bs == 0
  {
    Quotients(b - a, a / bs, b / bs, bs);
  }

  lemma Quotients(v: nat, i: int, j: int, bs: nat)
    requires bs > 0 && v == bs * j - bs * i
    ensures v % bs == 0
  {
    assert v == bs * (j - i);
    DivModUnique(v, bs, j - i, 0);
  }

  /** What the encoder writes first for a non-empty input, and how the decoder takes it. */
  lemma BlockEntered(a: State, b: State, s: seq<int16>, stereo: bool, bs: nat, w: nat)
    requires bs > 0 && s != [] && Whole(s, stereo)
    requires (w + |EncodeFrom(a, s, stereo, bs, w).0|) % bs == 0
    requires w % bs != 0 ==> Agree(a, b, stereo)
    ensures var h := if w % bs == 0 then HeaderBytes(stereo) else 0;
            var (unit, a1) := EncodeUnit(a, FirstUnit(s, stereo), stereo);
            var rest := EncodeFrom(a1, AfterUnit(s, stereo), stereo, bs, w + h + |unit|).0;
            var r := EnterBlock(b, EncodeFrom(a, s, stereo, bs, w).0, stereo, bs);
            && |EncodeFrom(a, s, stereo, bs, w).0| == h + |unit| + |rest|
            && r.Some? && Agree(a, r.value.0, stereo) && r.value.1 == unit + rest
  {
    hide EncodeUnit, Header, ReadHeader;
    var out := EncodeFrom(a, s, stereo, bs, w).0;
    var header := if w % bs == 0 then Header(a, stereo) else [];
    var (unit, a1) := EncodeUnit(a, FirstUnit(s, stereo), stereo);
    var rest := EncodeFrom(a1, AfterUnit(s, stereo), stereo, bs, w + |header| + |unit|).0;
    assert out == header + unit + rest;
    SameBlock(w, |out|, bs);
    HeaderRoundTrip(a, b, stereo);
    if w % bs == 0 {
      assert out[..|header|] == header && out[|header|..] == unit + rest;
    } else {
      assert out == unit + rest;
    }
  }

  /** Decoding the encoder's output gives the encoder's own reconstruction, whatever state the decoder
      starts a block in, when the encoded stream fills its last block. */
  lemma {:induction false} StreamRoundTrip(a: State, b: State, s: seq<int16>, stereo: bool, bs: nat, w: nat)
    requires bs > 0 && Whole(s, stereo)
    requires (w + |EncodeFrom(a, s, stereo, bs, w).0|) % bs == 0
    requires w % bs != 0 ==> Agree(a, b, stereo)
    ensures var r := DecodeFrom(b, EncodeFrom(a, s, stereo, bs, w).0, stereo, bs);
            && r.Some? && r.value.0 == ReconstructFrom(a, s, stereo)
            && (s != [] ==> Agree(EncodeFrom(a, s, stereo, bs, w).1, r.value.1, stereo))
    decreases |s|
  {
    hide EncodeUnit, DecodeUnit, ReconstructUnit, EnterBlock;
    if s == [] {
    } else {
      var h := if w % bs == 0 then HeaderBytes(stereo) else 0;
      var (unit, a1) := EncodeUnit(a, FirstUnit(s, stereo), stereo);
      var out := EncodeFrom(a, s, stereo, bs, w).0;
      var rest := EncodeFrom(a1, AfterUnit(s, stereo), stereo, bs, w + h + |unit|).0;
      BlockEntered(a, b, s, stereo, bs, w);
      var b1 := EnterBlock(b, out, stereo, bs).value.0;
      assert (unit + rest)[..|unit|] == unit && (unit + rest)[|unit|..] == rest;
      UnitRoundTrip(a, b1, FirstUnit(s, stereo), stereo);
      var b2 := DecodeUnit(b1, unit, stereo).1;
      StreamRoundTrip(a1, b2, AfterUnit(s, stereo), stereo, bs, w + h + |unit|);
    }
  }
}
