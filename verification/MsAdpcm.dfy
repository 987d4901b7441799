/** Microsoft ADPCM on values (libfreerdp/codec/dsp.c): the encoder and the decoder stay in lockstep
    inside a block, and across block headers exactly when the 16 bits kept there hold the step. */
module MsAdpcm {
  import opened Basics
  import opened Bits
  import opened ImaAdpcm

  type coeffSet = x: int | 0 <= x < 7

  /** predictor, delta, sample1 and sample2 of one channel. */
  datatype MsChannel = MsChannel(predictor: coeffSet, delta: int, sample1: int16, sample2: int16)

  datatype MsState = MsState(left: MsChannel, right: MsChannel)

  // ----- C arithmetic

  /** Division truncating towards zero. */
  function CDiv(a: int, b: int): int
    requires b > 0
  {
    if a >= 0 then a / b else -(-a / b)
  }

  function CMod(a: int, b: int): int
    requires b > 0
  {
    a - CDiv(a, b) * b
  }

  // ----- samples

  /** ms_adpcm_adaptation_table. */
  function Adaptation(code: nibble): (a: nat)
    ensures 230 <= a <= 768
  {
    [230, 230, 230, 230, 307, 409, 512, 614, 768, 614, 512, 409, 307, 230, 230, 230][code]
  }

  /** ms_adpcm_coeffs1 and ms_adpcm_coeffs2. */
  function Coeffs(p: coeffSet): (int, int) {
    [(256, 0), (512, -256), (0, 0), (192, 64), (240, 0), (460, -208), (392, -232)][p]
  }

  function Predict(c: MsChannel): int {
    CDiv(c.sample1 * Coeffs(c.predictor).0 + c.sample2 * Coeffs(c.predictor).1, 256)
  }

  function NextDelta(delta: int, code: nibble): (d: int)
    ensures d >= 16
  {
    var d := CDiv(delta * Adaptation(code), 256);
    if d < 16 then 16 else d
  }

  /** The update both sample routines end with. */
  function Update(c: MsChannel, presample: int, code: nibble): MsChannel {
    MsChannel(c.predictor, NextDelta(c.delta, code), Clamp16(presample), c.sample1)
  }

  function SignedNibble(code: nibble): int {
    if code >= 8 then code - 16 else code
  }

  /** freerdp_dsp_decode_ms_adpcm_sample. */
  function MsDecodeSample(c: MsChannel, code: nibble): MsChannel {
    Update(c, Predict(c) + SignedNibble(code) * c.delta, code)
  }

  /** The error in steps: truncated, rounded up when the remainder is more than half a step, and
      kept to four bits. */
  function ErrorSteps(d: int, delta: int): (e: int)
    requires delta > 0
    ensures -8 <= e <= 7
  {
    var q := CDiv(d, delta);
    var e := if CMod(d, delta) > CDiv(delta, 2) then q + 1 else q;
    if e > 7 then 7 else if e < -8 then -8 else e
  }

  /** freerdp_dsp_encode_ms_adpcm_sample: the code and the channel after it. */
  function MsEncodeSample(c: MsChannel, sample: int16): (r: (nibble, MsChannel))
    requires c.delta > 0
  {
    var e := ErrorSteps(sample - Predict(c), c.delta);
    var code: nibble := if e < 0 then e + 16 else e;
    (code, Update(c, Predict(c) + c.delta * e, code))
  }

  /** The decoder's channel after a code is the encoder's after producing it. */
  lemma MsLockstep(c: MsChannel, sample: int16)
    requires c.delta > 0
    ensures MsDecodeSample(c, MsEncodeSample(c, sample).0) == MsEncodeSample(c, sample).1
  {
    hide Predict, ErrorSteps, Update;
  }

  lemma Truncated(a: nat, b: nat)
    requires b > 0
    ensures a == b * (a / b) + a % b && 0 <= a % b < b && a / b >= 0
  {
  }

  /** How far the error is from the steps that stand for it. */
  lemma ErrorBounds(d: int, delta: int)
    requires delta >= 2
    ensures var e := ErrorSteps(d, delta);
            && (e >= 1 ==> 2 * d >= delta * (2 * e - 1))
            && (e <= -1 ==> -d >= delta * -e)
            && (-9 * delta < d < 8 * delta <==> -delta < d - delta * e < delta)
  {
    hide ErrorSteps;
    if d >= 0 {
      Truncated(d, delta);
      PositiveSteps(d, delta);
      PositiveRest(d, delta, d / delta, d % delta, ErrorSteps(d, delta));
    } else {
      Truncated(-d, delta);
      NegativeRest(d, delta);
      NegativeSteps(d, delta, -d / delta, -d % delta, ErrorSteps(d, delta));
    }
  }

  lemma NegativeSteps(d: int, delta: nat, q: nat, r: nat, e: int)
    requires d < 0 && -d == delta * q + r && r < delta && ((e + q == 0 && q <= 8) || (e == -8 && q >= 8))
    ensures e <= 0 && -d >= delta * -e
    ensures -9 * delta < d < 8 * delta <==> 0 - delta < d - delta * e < delta
  {
    if e + q == 0 {
      assert delta * -e == delta * q && delta * e == -(delta * q);
      MulMono(q, 8, delta);
    } else {
      MulMono(8, q, delta);
      if q >= 9 { MulMono(9, q, delta); }
    }
  }

  lemma PositiveSteps(d: nat, delta: nat)
    requires delta >= 2
    ensures var e, q, r := ErrorSteps(d, delta), d / delta, d % delta;
            e == if q >= 7 then 7 else if r > delta / 2 then q + 1 else q
  {
    assert CDiv(d, delta) * delta == delta * (d / delta);
    assert CMod(d, delta) == d % delta;
  }

  lemma PositiveRest(d: nat, delta: nat, q: nat, r: nat, e: int)
    requires d == delta * q + r && r < delta && delta >= 2 && e <= 7
    requires e == q || (e == q + 1 && r > delta / 2) || (e == 7 && q >= 7)
    ensures e >= 0 && (e >= 1 ==> 2 * d >= delta * (2 * e - 1))
    ensures -9 * delta < d < 8 * delta <==> 0 - delta < d - delta * e < delta
  {
    if q >= e {
      MulMono(e, q, delta);
      assert delta * (2 * e - 1) == 2 * (delta * e) - delta;
      if q >= 8 { MulMono(8, q, delta); } else { MulMono(q, 7, delta); }
    } else {
      assert delta * (q + 1) == delta * q + delta;
      assert delta * (2 * q + 1) == 2 * (delta * q) + delta;
      MulMono(q, 6, delta);
    }
  }

  /** A negative error is never rounded up. */
  lemma NegativeRest(d: int, delta: int)
    requires d < 0 && delta >= 2
    ensures CMod(d, delta) <= 0 && ErrorSteps(d, delta) == if -(-d / delta) < -8 then -8 else -(-d / delta)
  {
    Truncated(-d, delta);
    assert CDiv(d, delta) * delta == -(delta * (-d / delta));
  }

  /** The predicted value corrected by the code, before it is clamped, is less than a step away from the
      sample exactly when the prediction was off by less than 9 steps upwards or 8 downwards; the clamp
      only brings it closer. */
  lemma MsQuantizerError(c: MsChannel, sample: int16)
    requires c.delta >= 2
    ensures var d := sample - Predict(c);
            var corrected := Predict(c) + c.delta * ErrorSteps(d, c.delta);
            && (-9 * c.delta < d < 8 * c.delta <==> -c.delta < sample - corrected < c.delta)
            && Distance(sample, MsEncodeSample(c, sample).1.sample1) <= Distance(sample, corrected)
  {
    hide Predict, ErrorSteps, NextDelta;
    ErrorBounds(sample - Predict(c), c.delta);
  }

  // ----- the step stays in range

  /** Predictors whose coefficients have magnitudes that add up to at most one. */
  predicate Tame(p: coeffSet) {
    p == 0 || p == 2 || p == 3 || p == 4
  }

  /** A step that the encoder may start with: at least 16, and small enough for the 32-bit product with
      the adaptation table. */
  predicate DeltaOK(c: MsChannel) {
    16 <= c.delta <= 0x7FFF_FFFF / 768
  }

  /** The largest step that encoding leads to. */
  function DeltaLimit(p: coeffSet): int {
    if Tame(p) then 24576 else 49152
  }

  lemma PredictBound(c: MsChannel)
    ensures var p := Predict(c); -98304 <= p <= 98304 && (Tame(c.predictor) ==> -32768 <= p <= 32767)
  {
    Times(c.sample1, Coeffs(c.predictor).0);
    Times(c.sample2, Coeffs(c.predictor).1);
  }

  lemma Times(x: int, k: int)
    requires -32768 <= x <= 32767
    ensures k >= 0 ==> -32768 * k <= x * k <= 32767 * k
    ensures k < 0 ==> 32767 * k <= x * k <= -32768 * k
  {
    if k >= 0 {
      MulMono(x, 32767, k);
      MulMono(-32768, x, k);
    } else {
      MulMono(x, 32767, -k);
      MulMono(-32768, x, -k);
    }
  }

  /** With errors of at most m no step grows beyond 3/8 m. */
  lemma DeltaStep(d: int, delta: int, m: int)
    requires 16 <= delta && -m <= d <= m && m >= 64
    ensures var e := ErrorSteps(d, delta);
            var next := NextDelta(delta, if e < 0 then e + 16 else e);
            8 * next <= 3 * m || next <= delta
  {
    hide ErrorSteps;
    ErrorBounds(d, delta);
    var e := ErrorSteps(d, delta);
    if e == 7 { } else if e == 6 { } else if e == 5 { } else if e == 4 { }
    else if e == -8 { } else if e == -7 { } else if e == -6 { } else if e == -5 { } else if e == -4 { }
    else { SmallCode(delta, if e < 0 then e + 16 else e); }
  }

  /** The codes of errors of at most three steps make the step smaller. */
  lemma SmallCode(delta: int, code: nibble)
    requires delta >= 16 && (code <= 3 || code >= 13)
    ensures NextDelta(delta, code) <= delta
  {
  }

  /** Whatever is encoded, a step that is in range stays in range, and it does not grow beyond the limit
      of its predictor. */
  lemma DeltaStays(c: MsChannel, sample: int16)
    requires DeltaOK(c)
    ensures var next := MsEncodeSample(c, sample).1;
            DeltaOK(next) && next.predictor == c.predictor
            && (next.delta <= c.delta || next.delta <= DeltaLimit(c.predictor))
  {
    hide Predict, ErrorSteps, NextDelta;
    PredictBound(c);
    DeltaStep(sample - Predict(c), c.delta, if Tame(c.predictor) then 65536 else 131072);
  }

  // ----- data bytes

  /** One data byte: two codes, the first in the high nibble; the second belongs to the right channel
      of a stereo stream. */
  function MsEncodeByte(st: MsState, a: int16, b: int16, stereo: bool): (r: (byte, MsState))
    requires st.left.delta > 0 && (stereo ==> st.right.delta > 0)
  {
    var (first, left) := MsEncodeSample(st.left, a);
    var (second, other) := MsEncodeSample(if stereo then st.right else left, b);
    (PairByte(second, first), if stereo then MsState(left, other) else MsState(other, st.right))
  }

  /** The channels after a data byte, from which its two samples are taken. */
  function MsDecodeByte(st: MsState, x: byte, stereo: bool): (r: (int16, int16, MsState)) {
    var left := MsDecodeSample(st.left, x / 16);
    var other := MsDecodeSample(if stereo then st.right else left, x % 16);
    (left.sample1, other.sample1, if stereo then MsState(left, other) else MsState(other, st.right))
  }

  /** The product of the step and its factor is an INT32. */
  predicate InInt32(c: MsChannel, code: nibble) {
    -0x8000_0000 <= c.delta * Adaptation(code) <= 0x7FFF_FFFF
  }

  /** The decoder does not overflow on a data byte. */
  predicate ByteInInt32(st: MsState, x: byte, stereo: bool) {
    InInt32(st.left, x / 16) && InInt32(if stereo then st.right else MsDecodeSample(st.left, x / 16), x % 16)
  }

  lemma DeltaInInt32(c: MsChannel, code: nibble)
    requires DeltaOK(c)
    ensures InInt32(c, code)
  {
    MulMono(Adaptation(code), 768, c.delta);
    MulMono(0, Adaptation(code), c.delta);
  }

  predicate MsAgree(a: MsState, b: MsState, stereo: bool) {
    a.left == b.left && (stereo ==> a.right == b.right)
  }

  predicate StateOK(st: MsState, stereo: bool): (ok: bool)
    ensures ok ==> st.left.delta > 0 && (stereo ==> st.right.delta > 0)
  {
    DeltaOK(st.left) && (stereo ==> DeltaOK(st.right))
  }

  /** A context that nothing has been encoded or decoded with. */
  function FreshState(): MsState {
    MsState(MsChannel(0, 0, 0, 0), MsChannel(0, 0, 0, 0))
  }

  /** The encoder starts with steps of at least 16. */
  function AtLeast16(c: MsChannel): MsChannel {
    if c.delta < 16 then c.(delta := 16) else c
  }

  function Started(st: MsState): MsState {
    MsState(AtLeast16(st.left), AtLeast16(st.right))
  }

  /** The two samples the encoder itself reconstructs for a data byte. */
  function Heard(st: MsState, a: int16, b: int16, stereo: bool): (r: seq<int16>)
    requires st.left.delta > 0 && (stereo ==> st.right.delta > 0)
    ensures |r| == 2
  {
    var left := MsEncodeSample(st.left, a).1;
    [left.sample1, MsEncodeSample(if stereo then st.right else left, b).1.sample1]
  }

  lemma ByteRoundTrip(a: MsState, b: MsState, x: int16, y: int16, stereo: bool)
    requires StateOK(a, stereo) && MsAgree(a, b, stereo)
    ensures var (code, a1) := MsEncodeByte(a, x, y, stereo);
            var r := MsDecodeByte(b, code, stereo);
            && [r.0, r.1] == Heard(a, x, y, stereo) && MsAgree(a1, r.2, stereo) && StateOK(a1, stereo)
            && ByteInInt32(b, code, stereo)
  {
    hide MsEncodeSample, MsDecodeSample, InInt32;
    MsLockstep(a.left, x);
    DeltaStays(a.left, x);
    DeltaInInt32(a.left, MsEncodeSample(a.left, x).0);
    var other := if stereo then a.right else MsEncodeSample(a.left, x).1;
    MsLockstep(other, y);
    DeltaStays(other, y);
    DeltaInInt32(other, MsEncodeSample(other, y).0);
  }

  // ----- block headers

  function TwoBytes(x: int): (b: seq<byte>)
    ensures |b| == 2
  {
    [x % 256, x / 256 % 256]
  }

  function MsHeaderBytes(stereo: bool): nat {
    if stereo then 14 else 7
  }

  /** Samples a header takes from the input, verbatim. */
  function MsHeaderSamples(stereo: bool): nat {
    if stereo then 4 else 2
  }

  /** The encoder at a block start: sample2 and sample1 of each channel are the first two frames. */
  function MsOpen(st: MsState, s: seq<int16>, stereo: bool): MsState
    requires |s| == MsHeaderSamples(stereo)
  {
    if stereo then MsState(st.left.(sample1 := s[2], sample2 := s[0]), st.right.(sample1 := s[3], sample2 := s[1]))
    else st.(left := st.left.(sample1 := s[1], sample2 := s[0]))
  }

  function MsHeader(st: MsState, stereo: bool): (b: seq<byte>)
    ensures |b| == MsHeaderBytes(stereo)
  {
    if stereo then
      [st.left.predictor, st.right.predictor] + TwoBytes(st.left.delta) + TwoBytes(st.right.delta)
      + TwoBytes(st.left.sample1) + TwoBytes(st.right.sample1) + TwoBytes(st.left.sample2) + TwoBytes(st.right.sample2)
    else [st.left.predictor] + TwoBytes(st.left.delta) + TwoBytes(st.left.sample1) + TwoBytes(st.left.sample2)
  }

  /** The state and the samples a header stands for, or None for a predictor outside the tables. */
  function MsReadHeader(st: MsState, b: seq<byte>, stereo: bool): (r: Option<(seq<int16>, MsState)>)
    requires |b| == MsHeaderBytes(stereo)
    ensures r.Some? ==> |r.value.0| == MsHeaderSamples(stereo)
  {
    if b[0] > 6 || (stereo && b[1] > 6) then None
    else if stereo then
      var left := MsChannel(b[0], Int16At(b[2], b[3]), Int16At(b[6], b[7]), Int16At(b[10], b[11]));
      var right := MsChannel(b[1], Int16At(b[4], b[5]), Int16At(b[8], b[9]), Int16At(b[12], b[13]));
      Some(([left.sample2, right.sample2, left.sample1, right.sample1], MsState(left, right)))
    else
      var left := MsChannel(b[0], Int16At(b[1], b[2]), Int16At(b[3], b[4]), Int16At(b[5], b[6]));
      Some(([left.sample2, left.sample1], st.(left := left)))
  }

  lemma SixteenBits(x: int)
    requires -32768 <= x
    ensures Int16At(TwoBytes(x)[0], TwoBytes(x)[1]) == x <==> x <= 32767
  {
  }

  predicate HeaderFits(st: MsState, stereo: bool) {
    st.left.delta <= 32767 && (stereo ==> st.right.delta <= 32767)
  }

  /** A header gives back the encoder's channels exactly when their steps fit in 16 signed bits. */
  lemma MsHeaderRoundTrip(a: MsState, b: MsState, stereo: bool)
    requires StateOK(a, stereo)
    ensures var r := MsReadHeader(b, MsHeader(a, stereo), stereo);
            r.Some? && (MsAgree(a, r.value.1, stereo) <==> HeaderFits(a, stereo))
  {
    hide TwoBytes, Int16At;
    SixteenBits(a.left.delta);
    SixteenBits(a.left.sample1);
    SixteenBits(a.left.sample2);
    if stereo {
      SixteenBits(a.right.delta);
      SixteenBits(a.right.sample1);
      SixteenBits(a.right.sample2);
    }
  }

  // ----- the stream

  /** An encoded stream: its bytes, what the encoder reconstructs, its last state and whether every
      header could hold its steps. */
  datatype Encoding = Encoding(bytes: seq<byte>, heard: seq<int16>, last: MsState, fits: bool)

  /** The header test of the encoder: the header, the samples in it, the state and the input left. */
  function MsEnterBlock(st: MsState, s: seq<int16>, stereo: bool, blockSize: nat, written: nat)
      : (r: Option<(seq<byte>, MsState, seq<int16>)>)
    requires blockSize > 0
    ensures r.Some? ==> |r.value.2| <= |s|
  {
    if written % blockSize != 0 then Some(([], st, s))
    else if |s| < MsHeaderSamples(stereo) then None
    else
      var st1 := MsOpen(st, s[..MsHeaderSamples(stereo)], stereo);
      Some((MsHeader(st1, stereo), st1, s[MsHeaderSamples(stereo)..]))
  }

  /** freerdp_dsp_encode_ms_adpcm with `written` bytes in the buffer, or None where the C code would
      read past its input. */
  function MsEncodeFrom(st: MsState, s: seq<int16>, stereo: bool, blockSize: nat, written: nat): (r: Option<Encoding>)
    requires blockSize > 0 && StateOK(st, stereo)
    decreases |s|
  {
    if s == [] then Some(Encoding([], [], st, true))
    else
      match MsEnterBlock(st, s, stereo, blockSize, written)
      case None => None
      case Some((header, st1, s1)) =>
        if |s1| < 2 then None
        else
          assert StateOK(st1, stereo);
          var (code, st2) := MsEncodeByte(st1, s1[0], s1[1], stereo);
          ByteRoundTrip(st1, st1, s1[0], s1[1], stereo);
          match MsEncodeFrom(st2, s1[2..], stereo, blockSize, written + |header| + 1)
          case None => None
          case Some(rest) =>
            Some(Encoding(header + [code] + rest.bytes,
                          s[..|s| - |s1|] + Heard(st1, s1[0], s1[1], stereo) + rest.heard,
                          rest.last, (header == [] || HeaderFits(st1, stereo)) && rest.fits))
  }

  /** The header test of the decoder. */
  function MsResume(st: MsState, b: seq<byte>, stereo: bool, blockSize: nat)
      : (r: Option<(seq<int16>, MsState, seq<byte>)>)
    requires blockSize > 0
    ensures r.Some? ==> |r.value.2| <= |b|
  {
    var h := MsHeaderBytes(stereo);
    if |b| % blockSize != 0 then Some(([], st, b))
    else if |b| < h then None
    else
      match MsReadHeader(st, b[..h], stereo)
      case None => None
      case Some((samples, st1)) => Some((samples, st1, b[h..]))
  }

  /** freerdp_dsp_decode_ms_adpcm, which takes two data bytes of a stereo stream between header tests,
      or None where the C code would leave its input or its tables or overflow a step. */
  function MsDecodeFrom(st: MsState, b: seq<byte>, stereo: bool, blockSize: nat): (r: Option<(seq<int16>, MsState)>)
    requires blockSize > 0
    decreases |b|
  {
    if b == [] then Some(([], st))
    else
      match MsResume(st, b, stereo, blockSize)
      case None => None
      case Some((head, st1, b1)) =>
        if |b1| < (if stereo then 2 else 1) || !ByteInInt32(st1, b1[0], stereo) then None
        else
          var x := MsDecodeByte(st1, b1[0], stereo);
          if stereo then
            if !ByteInInt32(x.2, b1[1], stereo) then None else
            var y := MsDecodeByte(x.2, b1[1], stereo);
            After(head + [x.0, x.1] + [y.0, y.1], MsDecodeFrom(y.2, b1[2..], stereo, blockSize))
          else After(head + [x.0, x.1], MsDecodeFrom(x.2, b1[1..], stereo, blockSize))
  }

  function After(samples: seq<int16>, r: Option<(seq<int16>, MsState)>): Option<(seq<int16>, MsState)> {
    match r
    case None => None
    case Some((rest, st)) => Some((samples + rest, st))
  }

  /** One turn of the encoder's loop. */
  lemma MsEncodeNext(a: MsState, s: seq<int16>, stereo: bool, bs: nat, w: nat)
    requires bs > 0 && StateOK(a, stereo) && s != [] && MsEncodeFrom(a, s, stereo, bs, w).Some?
    ensures MsEnterBlock(a, s, stereo, bs, w).Some?
    ensures var (header, a1, s1) := MsEnterBlock(a, s, stereo, bs, w).value;
            |s1| >= 2 && StateOK(a1, stereo) && |header| == (if w % bs == 0 then MsHeaderBytes(stereo) else 0)
    ensures var (header, a1, s1) := MsEnterBlock(a, s, stereo, bs, w).value;
            var (code, a2) := MsEncodeByte(a1, s1[0], s1[1], stereo);
            StateOK(a2, stereo) && MsEncodeFrom(a2, s1[2..], stereo, bs, w + |header| + 1).Some?
    ensures var (header, a1, s1) := MsEnterBlock(a, s, stereo, bs, w).value;
            var (code, a2) := MsEncodeByte(a1, s1[0], s1[1], stereo);
            var rest := MsEncodeFrom(a2, s1[2..], stereo, bs, w + |header| + 1).value;
            MsEncodeFrom(a, s, stereo, bs, w).value ==
              Encoding(header + [code] + rest.bytes, s[..|s| - |s1|] + Heard(a1, s1[0], s1[1], stereo) + rest.heard,
                       rest.last, (header == [] || HeaderFits(a1, stereo)) && rest.fits)
  {
    hide MsEncodeByte, Heard, MsHeader;
    var (header, a1, s1) := MsEnterBlock(a, s, stereo, bs, w).value;
    OpenKeeps(a, s, stereo, bs, w);
    ByteRoundTrip(a1, a1, s1[0], s1[1], stereo);
  }

  /** The header test of the decoder on what the encoder wrote at the same place. */
  lemma MsEntered(a: MsState, b: MsState, s: seq<int16>, rest: seq<byte>, stereo: bool, bs: nat, w: nat)
    requires bs > 0 && StateOK(a, stereo) && MsEnterBlock(a, s, stereo, bs, w).Some?
    requires w % bs != 0 ==> MsAgree(a, b, stereo)
    requires var (header, a1, s1) := MsEnterBlock(a, s, stereo, bs, w).value;
             (w + |header + rest|) % bs == 0 && (header == [] || HeaderFits(a1, stereo))
    ensures var (header, a1, s1) := MsEnterBlock(a, s, stereo, bs, w).value;
            var r := MsResume(b, header + rest, stereo, bs);
            && r.Some? && r.value.0 == s[..|s| - |s1|] && MsAgree(a1, r.value.1, stereo) && r.value.2 == rest
  {
    hide MsHeader, MsReadHeader, DeltaOK;
    var (header, a1, s1) := MsEnterBlock(a, s, stereo, bs, w).value;
    OpenKeeps(a, s, stereo, bs, w);
    SameBlock(w, |header + rest|, bs);
    if w % bs == 0 {
      assert (header + rest)[..|header|] == header && (header + rest)[|header|..] == rest;
      MsHeaderRoundTrip(a1, b, stereo);
      HeaderSamples(a, b, s[..|s| - |s1|], stereo);
    } else {
      assert header + rest == rest;
    }
  }

  lemma OpenKeeps(st: MsState, s: seq<int16>, stereo: bool, bs: nat, w: nat)
    requires bs > 0 && StateOK(st, stereo) && MsEnterBlock(st, s, stereo, bs, w).Some?
    ensures var (header, st1, s1) := MsEnterBlock(st, s, stereo, bs, w).value;
            && StateOK(st1, stereo) && s1 == s[|s| - |s1|..]
            && |s| - |s1| == (if w % bs == 0 then MsHeaderSamples(stereo) else 0)
  {
  }

  /** A header also carries its first two frames. */
  lemma HeaderSamples(a: MsState, b: MsState, s: seq<int16>, stereo: bool)
    requires |s| == MsHeaderSamples(stereo)
    ensures var r := MsReadHeader(b, MsHeader(MsOpen(a, s, stereo), stereo), stereo);
            r.Some? && r.value.0 == s
  {
    hide TwoBytes, Int16At;
    forall k | 0 <= k < |s| ensures Int16At(TwoBytes(s[k])[0], TwoBytes(s[k])[1]) == s[k] {
      SixteenBits(s[k]);
    }
  }
}
