/** What the Microsoft ADPCM predictors predict and how the step follows the error, in terms of decoded samples
    alone, and which signals are therefore coded without loss (libfreerdp/codec/dsp.c:412-459, 562-594). */
module MsPredictors {
  import opened Basics
  import opened Bits
  import opened ImaAdpcm
  import opened MsAdpcm
  import opened MsStream

  // ----- the predictors

  /** p is num / den without its fraction, kept to 16 bits. */
  predicate IsQuotient(p: int16, num: int, den: nat) {
    && (p < 32767 ==> num < den * p + den)
    && (p > -32768 ==> num > den * p - den)
    && (p > 0 ==> num >= den * p)
    && (p < 0 ==> num <= den * p)
  }

  /** The sample that the code 0 decodes to: the last one again, the line through the last two, silence, and
      four weighted sums of the last two. */
  lemma Predictions(c: MsChannel)
    ensures var p, x, y := MsDecodeSample(c, 0).sample1, c.sample1, c.sample2;
            match c.predictor
            case 0 => p == x
            case 1 => p == Clamp16(2 * x - y)
            case 2 => p == 0
            case 3 => IsQuotient(p, 3 * x + y, 4)
            case 4 => IsQuotient(p, 15 * x, 16)
            case 5 => IsQuotient(p, 115 * x - 52 * y, 64)
            case _ => IsQuotient(p, 49 * x - 29 * y, 32)
  {
    hide NextDelta;
  }

  /** Any other code adds its number of steps to that. */
  lemma CodeAddsSteps(c: MsChannel, code: nibble)
    requires -32768 < MsDecodeSample(c, 0).sample1 < 32767
    ensures MsDecodeSample(c, code).sample1 ==
            Clamp16(MsDecodeSample(c, 0).sample1 + (if code < 8 then code else code - 16) * c.delta)
  {
    hide NextDelta, Predict;
  }

  // ----- the step

  /** What an error of m steps multiplies the step by, in tenths. */
  function Tenths(m: nat): nat {
    if m <= 3 then 9 else if m == 4 then 12 else if m == 5 then 16 else if m == 6 then 20
    else if m == 7 then 24 else 30
  }

  function Magnitude(code: nibble): nat {
    if code < 8 then code else 16 - code
  }

  /** The step shrinks by a tenth for errors of up to three steps, grows by a fifth for four and so on up to
      three times for eight, in 256ths and never below 16. */
  lemma StepFollows(c: MsChannel, code: nibble)
    ensures var next := c.delta * (256 * Tenths(Magnitude(code)) / 10) / 256;
            MsDecodeSample(c, code).delta == if c.delta < 0 || next < 16 then 16 else next
  {
    hide Predict;
    assert Adaptation(code) == 256 * Tenths(Magnitude(code)) / 10;
    if c.delta < 0 { MulMono(c.delta, 0, Adaptation(code)); } else { MulMono(0, c.delta, Adaptation(code)); }
  }

  /** So a larger error never leads to a smaller step. */
  lemma StepGrows(c: MsChannel, small: nibble, large: nibble)
    requires c.delta >= 0 && Magnitude(small) <= Magnitude(large)
    ensures MsDecodeSample(c, small).delta <= MsDecodeSample(c, large).delta
  {
    hide MsDecodeSample;
    StepFollows(c, small);
    StepFollows(c, large);
    var a, b := 256 * Tenths(Magnitude(small)) / 10, 256 * Tenths(Magnitude(large)) / 10;
    MulMono(a, b, c.delta);
  }

  // ----- the code of an error

  /** An error upwards is coded as the nearest number of steps, as far as four bits go, and one downwards as the
      steps that fit in it; p is the prediction before it is cut to 16 bits. */
  lemma ErrorCode(c: MsChannel, sample: int16)
    requires c.delta >= 2
    ensures var p, code := Predict(c), MsEncodeSample(c, sample).0;
            var rest := sample - p - c.delta * (if code < 8 then code else code - 16);
            && (0 <= sample - p && 2 * (sample - p) <= 15 * c.delta ==> -c.delta <= 2 * rest <= c.delta)
            && (2 * (sample - p) > 15 * c.delta ==> code == 7)
            && (-9 * c.delta < sample - p < 0 ==> -c.delta < rest <= 0)
            && (sample - p <= -9 * c.delta ==> code == 8)
  {
    hide Predict, ErrorSteps, Update;
    var d, e := sample - Predict(c), ErrorSteps(sample - Predict(c), c.delta);
    CodeOf(c, sample, e);
    if d >= 0 {
      Truncated(d, c.delta);
      PositiveSteps(d, c.delta);
      RoundedUp(d, c.delta, d / c.delta, d % c.delta, e);
    } else {
      Truncated(-d, c.delta);
      NegativeRest(d, c.delta);
      CutDown(-d, c.delta, -d / c.delta, -d % c.delta, e);
    }
  }

  lemma CodeOf(c: MsChannel, sample: int16, e: int)
    requires c.delta >= 2 && e == ErrorSteps(sample - Predict(c), c.delta)
    ensures var code := MsEncodeSample(c, sample).0; e == if code < 8 then code else code - 16
  {
    hide Predict, ErrorSteps, Update;
  }

  lemma RoundedUp(d: int, delta: int, q: int, r: int, e: int)
    requires d >= 0 && delta >= 2 && q >= 0 && d == delta * q + r && 0 <= r < delta
    requires e == if q >= 7 then 7 else if r > delta / 2 then q + 1 else q
    ensures 2 * d <= 15 * delta ==> -delta <= 2 * (d - delta * e) <= delta
    ensures 2 * d > 15 * delta ==> e == 7
  {
    if q >= 7 {
      MulMono(7, q, delta);
    } else if r > delta / 2 {
      assert delta * (q + 1) == delta * q + delta;
      if q < 6 { MulMono(q, 5, delta); }
    } else {
      MulMono(q, 6, delta);
    }
  }

  lemma CutDown(d: int, delta: int, q: int, r: int, e: int)
    requires d > 0 && delta >= 2 && q >= 0 && d == delta * q + r && 0 <= r < delta && e == if q > 8 then -8 else -q
    ensures d < 9 * delta ==> -delta < -d - delta * e <= 0
    ensures d >= 9 * delta ==> e == -8
  {
    if q > 8 {
      MulMono(9, q, delta);
    } else {
      MulMono(q, 8, delta);
      assert delta * e == -(delta * q);
    }
  }

  // ----- signals that are coded without loss

  /** A sample that the channel expects is coded as 0, comes back as it is and does not enlarge the step. */
  lemma Expected(c: MsChannel, sample: int16)
    requires c.delta >= 16 && Predict(c) == sample
    ensures MsEncodeSample(c, sample).0 == 0
    ensures var next := MsEncodeSample(c, sample).1;
            next.predictor == c.predictor && next.sample1 == sample && next.sample2 == c.sample1
            && 16 <= next.delta <= c.delta
  {
    hide Predict;
    assert Adaptation(0) == 230;
  }

  /** The predictor continues lines of this slope. */
  predicate Follows(p: coeffSet, slope: int) {
    p == 1 || (slope == 0 && (p == 0 || p == 3))
  }

  lemma OnLine(c: MsChannel, x: int16, slope: int)
    requires Follows(c.predictor, slope) && c.sample1 == x - slope && c.sample2 == x - 2 * slope
    ensures Predict(c) == x
  {
  }

  /** Sample k of a line is start + k * slope. */
  ghost predicate Line(s: seq<int16>, start: int, slope: int) {
    forall k {:trigger s[k]} :: 0 <= k < |s| ==> s[k] == start + k * slope
  }

  lemma LineFrom(s: seq<int16>, start: int, slope: int, n: nat)
    requires n <= |s| && Line(s, start, slope)
    ensures Line(s[n..], start + n * slope, slope)
  {
    forall k | 0 <= k < |s| - n
      ensures s[n..][k] == start + n * slope + k * slope
    {
      assert s[n..][k] == s[n + k];
      Distribute(n, k, slope);
    }
  }

  /** The channel stands on the line, in front of the sample `start`. */
  predicate Before(c: MsChannel, start: int, slope: int) {
    c.sample1 == start - slope && c.sample2 == start - 2 * slope
  }

  lemma LineSample(c: MsChannel, x: int16, slope: int)
    requires DeltaOK(c) && Follows(c.predictor, slope) && Before(c, x, slope)
    ensures var (code, next) := MsEncodeSample(c, x);
            && code == 0 && next.sample1 == x && next.predictor == c.predictor && Before(next, x + slope, slope)
            && DeltaOK(next) && next.delta <= c.delta
  {
    hide MsEncodeSample, Predict;
    OnLine(c, x, slope);
    Expected(c, x);
  }

  /** Two samples of a line in one data byte. */
  lemma LineByte(a: MsState, x: int16, y: int16, slope: int)
    requires StateOK(a, false) && HeaderFits(a, false) && Follows(a.left.predictor, slope)
    requires Before(a.left, x, slope) && y == x + slope
    ensures var (code, a1) := MsEncodeByte(a, x, y, false);
            && code == 0 && Heard(a, x, y, false) == [x, y] && StateOK(a1, false) && HeaderFits(a1, false)
            && a1.left.predictor == a.left.predictor && Before(a1.left, y + slope, slope)
  {
    hide MsEncodeSample, Before, Follows;
    LineSample(a.left, x, slope);
    var next := MsEncodeSample(a.left, x).1;
    LineSample(next, y, slope);
    var last := MsEncodeSample(next, y).1;
    assert MsEncodeByte(a, x, y, false) == (0, MsState(last, a.right));
  }

  /** A mono stream that is one line, encoded with a predictor that follows it, loses nothing. */
  lemma {:induction false} LineHeard(a: MsState, s: seq<int16>, start: int, slope: int, bs: nat, w: nat)
    requires bs > 0 && StateOK(a, false) && HeaderFits(a, false) && Follows(a.left.predictor, slope)
    requires Line(s, start, slope) && (w % bs != 0 ==> Before(a.left, start, slope))
    requires MsEncodeFrom(a, s, false, bs, w).Some?
    ensures var out := MsEncodeFrom(a, s, false, bs, w).value; out.heard == s && out.fits
    decreases |s|
  {
    hide MsEncodeFrom, MsEncodeByte, MsEnterBlock, Heard, Line, StateOK;
    if s == [] {
      NothingEncoded(a, false, bs, w);
    } else {
      MsEncodeNext(a, s, false, bs, w);
      var (header, a1, s1) := MsEnterBlock(a, s, false, bs, w).value;
      var n := |s| - |s1|;
      LineOpened(a, s, start, slope, bs, w);
      LineFrom(s, start, slope, n);
      LineStarts(s1, start + n * slope, slope);
      LineByte(a1, s1[0], s1[1], slope);
      LineFrom(s1, start + n * slope, slope, 2);
      LineHeard(MsEncodeByte(a1, s1[0], s1[1], false).1, s1[2..], start + n * slope + 2 * slope, slope, bs,
                w + |header| + 1);
      assert s == s[..n] + [s1[0], s1[1]] + s1[2..];
    }
  }

  lemma LineStarts(s: seq<int16>, start: int, slope: int)
    requires Line(s, start, slope) && |s| >= 2
    ensures s[0] == start && s[1] == start + slope
  {
  }

  /** A header puts the channel on the line. */
  lemma LineOpened(a: MsState, s: seq<int16>, start: int, slope: int, bs: nat, w: nat)
    requires bs > 0 && StateOK(a, false) && Line(s, start, slope) && MsEnterBlock(a, s, false, bs, w).Some?
    requires HeaderFits(a, false) && (w % bs != 0 ==> Before(a.left, start, slope))
    ensures var (header, a1, s1) := MsEnterBlock(a, s, false, bs, w).value;
            && s1 == s[|s| - |s1|..] && StateOK(a1, false) && HeaderFits(a1, false)
            && a1.left.predictor == a.left.predictor && Before(a1.left, start + (|s| - |s1|) * slope, slope)
  {
    hide MsHeader, StateOK;
    OpenKeeps(a, s, false, bs, w);
    if w % bs == 0 {
      LineStarts(s, start, slope);
    }
  }

  /** A frame of two lines in one data byte. */
  lemma LineFrame(a: MsState, x: int16, y: int16, left: int, right: int)
    requires StateOK(a, true) && HeaderFits(a, true)
    requires Follows(a.left.predictor, left) && Before(a.left, x, left)
    requires Follows(a.right.predictor, right) && Before(a.right, y, right)
    ensures var (code, a1) := MsEncodeByte(a, x, y, true);
            && code == 0 && Heard(a, x, y, true) == [x, y] && StateOK(a1, true) && HeaderFits(a1, true)
            && a1.left.predictor == a.left.predictor && Before(a1.left, x + left, left)
            && a1.right.predictor == a.right.predictor && Before(a1.right, y + right, right)
  {
    hide MsEncodeSample, Before, Follows;
    LineSample(a.left, x, left);
    LineSample(a.right, y, right);
    assert MsEncodeByte(a, x, y, true) == (0, MsState(MsEncodeSample(a.left, x).1, MsEncodeSample(a.right, y).1));
  }

  /** Both channels are lines. */
  ghost predicate Lines(s: seq<int16>, x: int, left: int, y: int, right: int) {
    |s| % 2 == 0 && Line(Lane(s, 0), x, left) && Line(Lane(s, 1), y, right)
  }

  lemma LinesFrom(s: seq<int16>, x: int, left: int, y: int, right: int, n: nat)
    requires 2 * n <= |s| && Lines(s, x, left, y, right)
    ensures Lines(s[2 * n..], x + n * left, left, y + n * right, right)
  {
    LineFrom(Lane(s, 0), x, left, n);
    LineFrom(Lane(s, 1), y, right, n);
    assert Lane(s[2 * n..], 0) == Lane(s, 0)[n..] && Lane(s[2 * n..], 1) == Lane(s, 1)[n..];
  }

  lemma FirstFrame(s: seq<int16>, x: int, left: int, y: int, right: int)
    requires Lines(s, x, left, y, right)
    ensures |s| >= 2 ==> s[0] == x && s[1] == y
    ensures |s| >= 4 ==> s[2] == x + left && s[3] == y + right
  {
    if |s| >= 2 { assert Lane(s, 0)[0] == s[0] && Lane(s, 1)[0] == s[1]; }
    if |s| >= 4 { assert Lane(s, 0)[1] == s[2] && Lane(s, 1)[1] == s[3]; }
  }

  lemma LinesOpened(a: MsState, s: seq<int16>, x: int, left: int, y: int, right: int, bs: nat, w: nat)
    requires bs > 0 && StateOK(a, true) && Lines(s, x, left, y, right) && MsEnterBlock(a, s, true, bs, w).Some?
    requires HeaderFits(a, true) && (w % bs != 0 ==> Before(a.left, x, left) && Before(a.right, y, right))
    ensures var (header, a1, s1) := MsEnterBlock(a, s, true, bs, w).value;
            var n := if w % bs == 0 then 2 else 0;
            && |s| - |s1| == 2 * n && s1 == s[2 * n..] && StateOK(a1, true) && HeaderFits(a1, true)
            && a1.left.predictor == a.left.predictor && Before(a1.left, x + n * left, left)
            && a1.right.predictor == a.right.predictor && Before(a1.right, y + n * right, right)
  {
    hide MsHeader, StateOK, Lines;
    OpenKeeps(a, s, true, bs, w);
    FirstFrame(s, x, left, y, right);
  }

  /** The same for a stereo stream of two lines. */
  lemma {:induction false} LinesHeard(a: MsState, s: seq<int16>, x: int, left: int, y: int, right: int, bs: nat, w: nat)
    requires bs > 0 && StateOK(a, true) && HeaderFits(a, true) && Lines(s, x, left, y, right)
    requires Follows(a.left.predictor, left) && Follows(a.right.predictor, right)
    requires w % bs != 0 ==> Before(a.left, x, left) && Before(a.right, y, right)
    requires MsEncodeFrom(a, s, true, bs, w).Some?
    ensures var out := MsEncodeFrom(a, s, true, bs, w).value; out.heard == s && out.fits
    decreases |s|
  {
    hide MsEncodeFrom, MsEncodeByte, MsEnterBlock, Heard, Lines, StateOK, Before, Follows;
    if s == [] {
      NothingEncoded(a, true, bs, w);
    } else {
      MsEncodeNext(a, s, true, bs, w);
      var (header, a1, s1) := MsEnterBlock(a, s, true, bs, w).value;
      var n := if w % bs == 0 then 2 else 0;
      LinesOpened(a, s, x, left, y, right, bs, w);
      LinesFrom(s, x, left, y, right, n);
      var x1, y1 := x + n * left, y + n * right;
      FirstFrame(s1, x1, left, y1, right);
      LineFrame(a1, s1[0], s1[1], left, right);
      LinesFrom(s1, x1, left, y1, right, 1);
      LinesHeard(MsEncodeByte(a1, s1[0], s1[1], true).1, s1[2..], x1 + left, left, y1 + right, right, bs,
                 w + |header| + 1);
      assert s == s[..2 * n] + [s1[0], s1[1]] + s1[2..];
    }
  }

  /** And it comes back as it was. */
  lemma LineRoundTrip(a: MsState, b: MsState, s: seq<int16>, start: int, slope: int, bs: nat)
    requires bs > 0 && StateOK(a, false) && HeaderFits(a, false) && Follows(a.left.predictor, slope)
    requires Line(s, start, slope)
    requires MsEncodeFrom(a, s, false, bs, 0).Some? && |MsEncodeFrom(a, s, false, bs, 0).value.bytes| % bs == 0
    ensures var r := MsDecodeFrom(b, MsEncodeFrom(a, s, false, bs, 0).value.bytes, false, bs);
            r.Some? && r.value.0 == s
  {
    hide MsEncodeFrom, MsDecodeFrom;
    DivModUnique(0, bs, 0, 0);
    LineHeard(a, s, start, slope, bs, 0);
    MsStreamRoundTrip(a, b, s, false, bs);
  }

  lemma LinesRoundTrip(a: MsState, b: MsState, s: seq<int16>, x: int, left: int, y: int, right: int, bs: nat)
    requires bs > 0 && StateOK(a, true) && HeaderFits(a, true) && Lines(s, x, left, y, right)
    requires Follows(a.left.predictor, left) && Follows(a.right.predictor, right) && DataBytes(bs) % 2 == 0
    requires MsEncodeFrom(a, s, true, bs, 0).Some? && |MsEncodeFrom(a, s, true, bs, 0).value.bytes| % bs == 0
    ensures var r := MsDecodeFrom(b, MsEncodeFrom(a, s, true, bs, 0).value.bytes, true, bs);
            r.Some? && r.value.0 == s
  {
    hide MsEncodeFrom, MsDecodeFrom, Lines;
    DivModUnique(0, bs, 0, 0);
    LinesHeard(a, s, x, left, y, right, bs, 0);
    MsStreamRoundTrip(a, b, s, true, bs);
  }
}
