/** How long an encoded IMA ADPCM stream gets, and whether it fits the buffer the encoder asks for
    (libfreerdp/codec/dsp.c). */
module ImaBuffer {
  import opened Basics
  import opened Bits
  import opened ImaAdpcm

  // ----- the length of a stream

  lemma EncodeNothing(st: State, stereo: bool, bs: nat, w: nat)
    requires bs > 0
    ensures EncodeFrom(st, [], stereo, bs, w) == ([], st)
  {
  }

  /** Allowance for the next header, `r` bytes into a block. */
  function Allowance(r: nat, bs: nat): int {
    if r == 0 then 20 else if bs - r >= 5 then 0 else 20 - 4 * (bs - r)
  }

  lemma {:induction false} MonoLength(st: State, s: seq<int16>, bs: nat, w: nat)
    requires Whole(s, false) && bs >= 9 && (w % bs == 0 || w % bs >= 5)
    ensures 10 * |EncodeFrom(st, s, false, bs, w).0| <= 9 * |s| + 2 * Allowance(w % bs, bs)
    decreases |s|
  {
    hide EncodeUnit, Header;
    if s == [] {
    } else {
      var st1 := EncodeUnit(st, FirstUnit(s, false), false).1;
      var w1 := w + (if w % bs == 0 then 4 else 0) + 1;
      ModAdd(w, bs, w1 - w);
      MonoLength(st1, AfterUnit(s, false), bs, w1);
    }
  }

  lemma {:induction false} StereoLength(st: State, s: seq<int16>, bs: nat, w: nat)
    requires Whole(s, true) && bs > 0
    ensures |EncodeFrom(st, s, true, bs, w).0| <= |s|
    decreases |s|
  {
    hide EncodeUnit, Header;
    if s == [] {
    } else {
      var st1 := EncodeUnit(st, FirstUnit(s, true), true).1;
      StereoLength(st1, AfterUnit(s, true), bs, w + (if w % bs == 0 then 8 else 0) + 8);
    }
  }

  /** Units left before the next header, r bytes into a block. */
  function Gap(r: nat, bs: nat): int {
    if r == 0 then 0 else bs - r
  }

  /** Headers in a mono stream of n data bytes, w bytes into the output. */
  function Headers(n: nat, bs: nat, w: nat): nat
    requires bs > 0
  {
    if n == 0 then 0
    else if w % bs == 0 then 1 + Headers(n - 1, bs, w + 5)
    else Headers(n - 1, bs, w + 1)
  }

  /** The exact length of a mono stream. */
  lemma {:induction false} MonoBytes(st: State, s: seq<int16>, bs: nat, w: nat)
    requires Whole(s, false) && bs > 0
    ensures |EncodeFrom(st, s, false, bs, w).0| == |s| / 2 + 4 * Headers(|s| / 2, bs, w)
    decreases |s|
  {
    hide EncodeUnit, Header;
    if s == [] {
    } else {
      var st1 := EncodeUnit(st, FirstUnit(s, false), false).1;
      OneUnitLess(|s|);
      MonoBytes(st1, AfterUnit(s, false), bs, w + (if w % bs == 0 then 5 else 1));
    }
  }

  /** In blocks of at most eight bytes a header of four bytes comes for at most four data bytes. */
  lemma {:induction false} ManyHeaders(n: nat, bs: nat, w: nat)
    requires 1 <= bs <= 8 && Gap(w % bs, bs) <= 3
    ensures 4 * Headers(n, bs, w) >= n - Gap(w % bs, bs)
    decreases n
  {
    if n > 0 {
      if w % bs == 0 {
        FiveOn(w, bs);
        ManyHeaders(n - 1, bs, w + 5);
      } else {
        ModAdd(w, bs, 1);
        ManyHeaders(n - 1, bs, w + 1);
      }
    }
  }

  /** After a header and a byte the next header is at most three bytes away. */
  lemma FiveOn(w: nat, bs: nat)
    requires 1 <= bs <= 8 && w % bs == 0
    ensures Gap((w + 5) % bs, bs) <= 3
  {
    var q := w / bs;
    assert w == bs * q;
    assert bs * (q + 5 / bs) + 5 % bs == w + 5 by {
      assert bs * (q + 5 / bs) == bs * q + bs * (5 / bs);
    }
    DivModUnique(w + 5, bs, q + 5 / bs, 5 % bs);
    ShortGap(bs);
  }

  lemma ShortGap(bs: nat)
    requires 1 <= bs <= 8
    ensures Gap(5 % bs, bs) <= 3
  {
    if bs == 1 { } else if bs == 2 { } else if bs == 3 { } else if bs == 4 { }
    else if bs == 5 { } else if bs == 6 { } else if bs == 7 { } else { }
  }

  // ----- the estimate of half the input

  /** The capacity after a call that asks for n bytes: `if (out_size > adpcm_maxlength)`. */
  function Grown(capacity: nat, n: nat): nat {
    if n > capacity then n + 1024 else capacity
  }

  /** A context has no buffer, or one that some call has grown. */
  predicate Admissible(capacity: nat) {
    capacity == 0 || capacity >= 1024
  }

  /** Half the size of the input, which is the number of its samples, is estimate enough: no stream
      outgrows the buffer. */
  ghost predicate EstimateSuffices(stereo: bool, bs: nat)
    requires bs > 0
  {
    forall st: State, s: seq<int16>, capacity: nat :: Whole(s, stereo) && Admissible(capacity) ==>
      |EncodeFrom(st, s, stereo, bs, 0).0| <= Grown(capacity, |s|)
  }

  /** Streams that the estimate covers. */
  lemma EncodedFits(st: State, s: seq<int16>, stereo: bool, bs: nat, capacity: nat)
    requires Whole(s, stereo) && bs > 0 && (stereo || bs >= 9)
    requires capacity >= |s| && Admissible(capacity)
    ensures |EncodeFrom(st, s, stereo, bs, 0).0| <= capacity
  {
    hide EncodeFrom;
    if s == [] {
      EncodeNothing(st, stereo, bs, 0);
    } else if stereo {
      StereoLength(st, s, bs, 0);
    } else {
      DivModUnique(0, bs, 0, 0);
      MonoLength(st, s, bs, 0);
    }
  }

  /** Two calls on a new context with mono blocks of at most eight bytes: two samples grow the buffer to
      1026 bytes, which is what 1026 samples ask for, but those need at least 1029. */
  lemma EstimateFails(st: State, s: seq<int16>, bs: nat)
    requires 1 <= bs <= 8 && |s| == 1026
    ensures Whole(s, false) && Grown(Grown(0, 2), |s|) == 1026
    ensures |EncodeFrom(st, s, false, bs, 0).0| >= 1029
  {
    hide EncodeFrom;
    DivModUnique(0, bs, 0, 0);
    MonoBytes(st, s, bs, 0);
    ManyHeaders(513, bs, 0);
  }

  /** The estimate is enough for every stream exactly when the stream is stereo or its blocks have at
      least nine bytes. */
  lemma EstimateSufficesIff(stereo: bool, bs: nat)
    requires bs > 0
    ensures EstimateSuffices(stereo, bs) <==> stereo || bs >= 9
  {
    hide EncodeFrom, Whole;
    if stereo || bs >= 9 {
      forall st: State, s: seq<int16>, capacity: nat | Whole(s, stereo) && Admissible(capacity)
        ensures |EncodeFrom(st, s, stereo, bs, 0).0| <= Grown(capacity, |s|)
      {
        EncodedFits(st, s, stereo, bs, Grown(capacity, |s|));
      }
    } else {
      var st := State(Channel(0, 0), Channel(0, 0));
      var s: seq<int16> := seq(1026, _ => 0);
      EstimateFails(st, s, bs);
      assert |EncodeFrom(st, s, stereo, bs, 0).0| > Grown(1026, |s|);
    }
  }
}
