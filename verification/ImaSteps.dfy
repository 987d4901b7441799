/** How the IMA ADPCM step follows the signal, in terms of samples and step sizes, and how soon the encoder
    settles on a signal that stays (libfreerdp/codec/dsp.c:100-155, 274-337). */
module ImaSteps {
  import opened Basics
  import opened Bits
  import opened ImaAdpcm

  // ----- the step sizes

  /** The sizes run from 7 to 32767, and each is between 17/16 and 8/7 of the one before. */
  lemma StepSizes(step: stepIndex)
    ensures StepSize(0) == 7 && StepSize(88) == 32767
    ensures step < 88 ==>
              17 * StepSize(step) <= 16 * StepSize(step + 1) && 7 * StepSize(step + 1) <= 8 * StepSize(step)
  {
  }

  /** Eight sizes on, the step has doubled. */
  lemma EightSizes(step: stepIndex)
    ensures step <= 80 ==> 2 * StepSize(step) <= StepSize(step + 8)
  {
  }

  lemma LongerStep(a: stepIndex, b: stepIndex)
    requires a <= b
    ensures StepSize(a) <= StepSize(b)
    decreases b - a
  {
    hide StepSize;
    if a < b {
      StepSizes(a);
      LongerStep(a + 1, b);
    }
  }

  // ----- how the step follows the error

  /** An error of less than a step takes one size off; from a step on, each quarter of a step adds two sizes, up
      to eight. Quarters and halves are rounded down. */
  lemma StepFollows(c: Channel, sample: int16)
    ensures var ss, e := StepSize(c.step), Distance(sample, c.sample);
            var change := if e < ss then -1
                          else if e < ss + ss / 4 then 2
                          else if e < ss + ss / 2 then 4
                          else if e < ss + ss / 2 + ss / 4 then 6 else 8;
            var to := c.step + change;
            EncodeSample(c, sample).1.step == if to < 0 then 0 else if to > 88 then 88 else to
  {
    hide StepSize;
    SignBit(Quantize(Distance(sample, c.sample), StepSize(c.step)).0);
  }

  /** A larger error never leads to a smaller step. */
  lemma StepGrows(c: Channel, near: int16, far: int16)
    requires Distance(near, c.sample) <= Distance(far, c.sample)
    ensures StepSize(EncodeSample(c, near).1.step) <= StepSize(EncodeSample(c, far).1.step)
  {
    hide StepSize, EncodeSample;
    StepFollows(c, near);
    StepFollows(c, far);
    LongerStep(EncodeSample(c, near).1.step, EncodeSample(c, far).1.step);
  }

  /** Two steps away the step at least doubles, while there are sizes left; less than one step away it does not
      grow. */
  lemma StepAdapts(c: Channel, sample: int16)
    ensures var ss, e, next := StepSize(c.step), Distance(sample, c.sample), EncodeSample(c, sample).1;
            && (e >= 2 * ss && c.step <= 80 ==> StepSize(next.step) >= 2 * ss)
            && (e >= 2 * ss && c.step >= 80 ==> StepSize(next.step) == 32767)
            && (e < ss ==> StepSize(next.step) <= ss)
            && (ss + ss / 4 <= e ==> StepSize(next.step) > ss || c.step == 88)
  {
    hide StepSize, EncodeSample;
    StepFollows(c, sample);
    EightSizes(c.step);
    StepSizes(c.step);
    var next := EncodeSample(c, sample).1;
    if next.step <= c.step { LongerStep(next.step, c.step); } else { LongerStep(c.step + 1, next.step); }
  }

  // ----- settling

  /** The channel after n samples of the same value. */
  function After(c: Channel, v: int16, n: nat): Channel
    decreases n
  {
    if n == 0 then c else After(EncodeSample(c, v).1, v, n - 1)
  }

  /** How many samples the encoder still needs, at most: far away it takes twelve turns to come near, then the
      step goes down one size at a time. */
  function Rank(c: Channel, v: int16): nat {
    var ss, e := StepSize(c.step), Distance(v, c.sample);
    if e >= 2 * ss then 93 + (95 - c.step) / 8
    else if e >= ss then 92
    else if c.step > 0 then c.step + 3
    else [0, 1, 2, 1, 1, 3, 3][e]
  }

  lemma RankBound(c: Channel, v: int16)
    ensures Rank(c, v) <= 104
    ensures Rank(c, v) == 0 <==> c == Channel(v, 0)
  {
    hide StepSize;
    StepSizes(c.step);
  }

  /** Near the value the last size is reached, and the last steps are exact. */
  lemma LastSize(c: Channel, v: int16)
    requires c.step == 0 && Distance(v, c.sample) < 7
    ensures var next := EncodeSample(c, v).1;
            next.step == 0 && Rank(next, v) <= (if Rank(c, v) == 0 then 0 else Rank(c, v) - 1)
  {
  }

  lemma RankFalls(c: Channel, v: int16)
    ensures Rank(EncodeSample(c, v).1, v) <= if Rank(c, v) == 0 then 0 else Rank(c, v) - 1
  {
    hide StepSize, EncodeSample;
    var ss, e, next := StepSize(c.step), Distance(v, c.sample), EncodeSample(c, v).1;
    StepSizes(c.step);
    StepFollows(c, v);
    QuantizerError(c, v);
    if e < ss {
      if c.step == 0 {
        LastSize(c, v);
      } else {
        StepSizes(c.step - 1);
      }
    } else if e < 2 * ss {
      LongerStep(c.step, next.step);
    }
  }

  /** From any channel, however far away, the encoder has settled after 104 samples of the same value: it
      reconstructs the value itself, with the smallest step. */
  lemma {:induction false} Settles(c: Channel, v: int16, n: nat)
    requires n >= Rank(c, v) || n >= 104
    ensures After(c, v, n) == Channel(v, 0)
    decreases n
  {
    hide Rank, EncodeSample;
    RankBound(c, v);
    if n > 0 {
      RankFalls(c, v);
      Settles(EncodeSample(c, v).1, v, n - 1);
    }
  }
}
