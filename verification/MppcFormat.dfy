/** The bits of the MPPC tokens on the wire (libfreerdp/codec/mppc.c; section 4 of RFC 2118 and section 3.1.8.4 of
    [MS-RDPBCGR]). */
module MppcFormat {
  import opened Bits
  import opened BitPieces
  import opened MppcCode
  import opened MppcHistory

  function Ones(n: nat): (b: seq<bool>)
    ensures |b| == n
  {
    seq(n, _ => true)
  }

  lemma {:induction false} Prefixed(prefix: nat, m: nat, low: nat, n: nat)
    requires low < Pow2(n)
    ensures ToBits(prefix * Pow2(n) + low, m + n) == ToBits(prefix, m) + ToBits(low, n)
  {
    hide ToBits;
    if n == 0 {
      LastBit(low, 0);
      assert ToBits(prefix, m) + ToBits(low, 0) == ToBits(prefix, m);
    } else {
      var v := prefix * Pow2(n) + low;
      Double(prefix, Pow2(n - 1));
      assert v / 2 == prefix * Pow2(n - 1) + low / 2 && v % 2 == low % 2;
      Prefixed(prefix, m, low / 2, n - 1);
      LastBit(v, m + n);
      LastBit(low, n);
      var high := ToBits(prefix, m);
      assert high + (ToBits(low / 2, n - 1) + [low % 2 == 1]) == (high + ToBits(low / 2, n - 1)) + [low % 2 == 1];
    }
  }

  /** The number of k ones is one less than a power of two. */
  lemma {:induction false} OnesValue(k: nat)
    ensures ToBits(Pow2(k) - 1, k) == Ones(k)
  {
    if k > 0 {
      OnesValue(k - 1);
      assert Ones(k) == Ones(k - 1) + [true];
    }
  }

  lemma OnesThenZero(k: nat)
    requires k > 0
    ensures ToBits(Pow2(k) - 2, k) == Ones(k - 1) + [false]
  {
    OnesValue(k - 1);
  }

  // ----- literals

  /** A literal is its seven low bits behind 0 or, from 128 on, behind 10. */
  lemma LiteralForm(symbol: byte)
    ensures TokenBits(0, Literal(symbol)) == TokenBits(1, Literal(symbol)) ==
            (if symbol < 0x80 then [false] else [true, false]) + ToBits(symbol % 0x80, 7)
  {
    hide ToBits;
    assert Pow2(7) == 0x80;
    if symbol < 0x80 {
      Prefixed(0, 1, symbol, 7);
      ToBitsZero(1);
      assert Zeros(1) == [false];
    } else {
      Prefixed(2, 2, symbol % 0x80, 7);
      OnesThenZero(2);
      assert Ones(1) + [false] == [true, false];
    }
  }

  // ----- copy offsets

  lemma OffsetFormRdp5(offset: nat)
    requires offset < 65536
    ensures Emit(OffsetCode(1, offset)) ==
            if offset < 64 then Ones(5) + ToBits(offset, 6)
            else if offset < 320 then Ones(4) + [false] + ToBits(offset - 64, 8)
            else if offset < 2368 then Ones(3) + [false] + ToBits(offset - 320, 11)
            else Ones(2) + [false] + ToBits(offset - 2368, 16)
  {
    hide ToBits;
    Powers();
    Fives();
    hide Pow2;
    if offset < 64 {
      Prefixed(31, 5, offset, 6);
    } else if offset < 320 {
      Prefixed(30, 5, offset - 64, 8);
    } else if offset < 2368 {
      Prefixed(14, 4, offset - 320, 11);
    } else {
      Prefixed(6, 3, offset - 2368, 16);
    }
  }

  lemma OffsetFormRdp4(offset: nat)
    requires offset < 8192
    ensures Emit(OffsetCode(0, offset)) ==
            if offset < 64 then Ones(4) + ToBits(offset, 6)
            else if offset < 320 then Ones(3) + [false] + ToBits(offset - 64, 8)
            else Ones(2) + [false] + ToBits(offset - 320, 13)
  {
    hide ToBits;
    Powers();
    Fives();
    hide Pow2;
    if offset < 64 {
      Prefixed(15, 4, offset, 6);
    } else if offset < 320 {
      Prefixed(14, 4, offset - 64, 8);
    } else {
      Prefixed(6, 3, offset - 320, 13);
    }
  }

  lemma Fives()
    ensures ToBits(31, 5) == Ones(5) && ToBits(15, 4) == Ones(4)
    ensures ToBits(30, 5) == Ones(4) + [false] && ToBits(14, 4) == Ones(3) + [false]
    ensures ToBits(6, 3) == Ones(2) + [false]
  {
    hide ToBits;
    assert Pow2(3) == 8 && Pow2(4) == 16 && Pow2(5) == 32;
    OnesValue(5);
    OnesValue(4);
    OnesThenZero(5);
    OnesThenZero(4);
    OnesThenZero(3);
  }

  /** A copy offset is counted from the start of its range, behind the ones that tell the range. */
  lemma OffsetForm(level: nat, offset: nat)
    requires level <= 1 && offset < (if level != 0 then 65536 else 8192)
    ensures level == 1 ==>
              Emit(OffsetCode(1, offset)) ==
              if offset < 64 then Ones(5) + ToBits(offset, 6)
              else if offset < 320 then Ones(4) + [false] + ToBits(offset - 64, 8)
              else if offset < 2368 then Ones(3) + [false] + ToBits(offset - 320, 11)
              else Ones(2) + [false] + ToBits(offset - 2368, 16)
    ensures level == 0 ==>
              Emit(OffsetCode(0, offset)) ==
              if offset < 64 then Ones(4) + ToBits(offset, 6)
              else if offset < 320 then Ones(3) + [false] + ToBits(offset - 64, 8)
              else Ones(2) + [false] + ToBits(offset - 320, 13)
  {
    hide ToBits, OffsetCode, Emit;
    if level == 1 { OffsetFormRdp5(offset); } else { OffsetFormRdp4(offset); }
  }

  // ----- match lengths

  /** A length from 2^k up to the next power of two is its k low bits behind k - 1 ones and a zero; 3 is a single
      zero. */
  lemma LengthForm(level: nat, length: nat, k: nat)
    requires level <= 1 && 2 <= k <= (if level == 1 then 15 else 12) && Pow2(k) <= length < Pow2(k + 1)
    ensures Emit(LengthCode(level, length)) == Ones(k - 1) + [false] + ToBits(length - Pow2(k), k)
  {
    hide ToBits, LengthCode;
    var p := Pow2(k);
    LengthPowers();
    if k <= 6 {
      ShortLength(level, length, k, p);
    } else if k <= 10 {
      MiddleLength(level, length, k, p);
    } else {
      LongLength(level, length, k, p);
    }
    OnesThenZero(k);
    Prefixed(p - 2, k, length - p, k);
  }

  lemma LengthPowers()
    ensures forall k {:trigger Pow2(k + 1)} :: k >= 0 ==> Pow2(k + 1) == 2 * Pow2(k)
    ensures Pow2(2) == 4 && Pow2(3) == 8 && Pow2(4) == 16 && Pow2(5) == 32 && Pow2(6) == 64 && Pow2(7) == 128
    ensures Pow2(8) == 256 && Pow2(9) == 512 && Pow2(10) == 1024 && Pow2(11) == 2048 && Pow2(12) == 4096
    ensures Pow2(13) == 8192 && Pow2(14) == 16384 && Pow2(15) == 32768
  {
  }

  lemma ShortLength(level: nat, length: nat, k: nat, p: nat)
    requires p <= length < 2 * p
    requires (k == 2 && p == 4) || (k == 3 && p == 8) || (k == 4 && p == 16) || (k == 5 && p == 32)
             || (k == 6 && p == 64)
    ensures LengthCode(level, length) == Code((p - 2) * p + (length - p), 2 * k)
  {
  }

  lemma MiddleLength(level: nat, length: nat, k: nat, p: nat)
    requires p <= length < 2 * p
    requires (k == 7 && p == 128) || (k == 8 && p == 256) || (k == 9 && p == 512) || (k == 10 && p == 1024)
    ensures LengthCode(level, length) == Code((p - 2) * p + (length - p), 2 * k)
  {
  }

  lemma LongLength(level: nat, length: nat, k: nat, p: nat)
    requires p <= length < 2 * p && (k > 12 ==> level == 1)
    requires (k == 11 && p == 2048) || (k == 12 && p == 4096) || (k == 13 && p == 8192) || (k == 14 && p == 16384)
             || (k == 15 && p == 32768)
    ensures LengthCode(level, length) == Code((p - 2) * p + (length - p), 2 * k)
  {
  }

  lemma ThreeForm(level: nat)
    ensures Emit(LengthCode(level, 3)) == [false]
  {
    ToBitsZero(1);
    assert Zeros(1) == [false];
  }

  // ----- what is no token

  lemma AccumulatorFront(b: seq<bool>, n: nat)
    requires n <= 32
    ensures Accumulator(b) / Pow2(32 - n) == FromBits(Window(b)[..n])
  {
    hide Window, FromBits, Pow2;
    assert Window(b) == Window(b)[..n] + Window(b)[n..];
    FromConcat(Window(b)[..n], Window(b)[n..]);
    FromBitsBound(Window(b)[n..]);
    TopDigit(Accumulator(b), FromBits(Window(b)[..n]), Pow2(32 - n), FromBits(Window(b)[n..]));
  }

  lemma FrontIsOnes(b: seq<bool>)
    ensures FromBits(b) == Pow2(|b|) - 1 <==> b == Ones(|b|)
  {
    hide ToBits, FromBits;
    OnesValue(|b|);
    ToFrom(b);
    FromTo(Pow2(|b|) - 1, |b|);
    SmallMod(Pow2(|b|) - 1, Pow2(|b|));
  }

  lemma NoLength(level: nat, acc: nat)
    requires level <= 1 && acc < 0x1_0000_0000
    ensures ReadLength(level, acc).Invalid? <==>
            if level == 1 then acc / 0x2_0000 == 0x7FFF else acc / 0x10_0000 == 0xFFF
  {
  }

  lemma OffsetsComplete(level: nat, acc: nat)
    requires 0xC000_0000 <= acc < 0x1_0000_0000
    ensures ReadOffset(level, acc).Field?
  {
  }

  /** The code is complete up to the longest length: behind two ones every offset is read, and a length is refused
      exactly when it starts with twelve ones, or fifteen at level 1. */
  lemma RefusedLength(level: nat, b: seq<bool>)
    requires level <= 1
    ensures Window(b)[..2] == Ones(2) ==> ReadOffset(level, Accumulator(b)).Field?
    ensures var n := if level == 1 then 15 else 12;
            ReadLength(level, Accumulator(b)).Invalid? <==> Window(b)[..n] == Ones(n)
  {
    hide Window, FromBits, ReadLength, ReadOffset;
    Powers();
    var n, acc := if level == 1 then 15 else 12, Accumulator(b);
    NoLength(level, acc);
    AccumulatorFront(b, n);
    FrontIsOnes(Window(b)[..n]);
    AccumulatorFront(b, 2);
    FrontIsOnes(Window(b)[..2]);
    if Window(b)[..2] == Ones(2) { OffsetsComplete(level, acc); }
  }

  // ----- where decoding stops

  /** Tokens are applied up to the first one that does not fit: behind the end of the history any token is out of
      range, and in front of it a copy tuple that leaves it is an overflow. */
  lemma {:induction false} DecodeStops(level: nat, h: History, pos: nat, ts: seq<Token>, t: Token, rest: seq<bool>)
    requires level <= 1 && AllCodable(level, ts) && AllFit(level, pos, ts) && Codable(level, t)
    requires !Fits(level, pos + TotalLength(ts), t)
    ensures var end := ApplyAll(level, h, pos, ts);
            Decode(level, h, pos, AllBits(level, ts) + (TokenBits(level, t) + rest)) ==
            if pos + TotalLength(ts) >= HistorySize(level) then OutOfRange(end) else Overflow(end)
    decreases |ts|
  {
    hide ReadToken, TokenBits, CopySource;
    var tail := TokenBits(level, t) + rest;
    if ts == [] {
      TokenRoundTrip(level, t, rest);
      assert [] + tail == tail;
    } else {
      var more := AllBits(level, ts[1..]) + tail;
      FirstTokenBits(level, ts, tail);
      TokenRoundTrip(level, ts[0], more);
      DecodeStep(level, h, pos, TokenBits(level, ts[0]) + more, ts[0], more);
      DecodeStops(level, Apply(level, h, pos, ts[0]), pos + TokenLength(ts[0]), ts[1..], t, rest);
    }
  }

  /** Or up to a length that is none: twelve ones, fifteen at level 1, behind any offset. */
  lemma {:induction false} DecodeRefuses(level: nat, h: History, pos: nat, ts: seq<Token>, offset: nat, rest: seq<bool>)
    requires level <= 1 && AllCodable(level, ts) && AllFit(level, pos, ts)
    requires pos + TotalLength(ts) < HistorySize(level) && offset < HistorySize(level)
    ensures var bad := Emit(OffsetCode(level, offset)) + (Ones(if level == 1 then 15 else 12) + rest);
            Decode(level, h, pos, AllBits(level, ts) + bad) == InvalidLength(ApplyAll(level, h, pos, ts))
    decreases |ts|
  {
    hide ReadToken, TokenBits, CopySource, Emit, OffsetCode;
    var bad := Emit(OffsetCode(level, offset)) + (Ones(if level == 1 then 15 else 12) + rest);
    if ts == [] {
      BadLengthRead(level, offset, rest);
      assert [] + bad == bad;
    } else {
      var more := AllBits(level, ts[1..]) + bad;
      FirstTokenBits(level, ts, bad);
      TokenRoundTrip(level, ts[0], more);
      DecodeStep(level, h, pos, TokenBits(level, ts[0]) + more, ts[0], more);
      DecodeRefuses(level, Apply(level, h, pos, ts[0]), pos + TokenLength(ts[0]), ts[1..], offset, rest);
    }
  }

  lemma BadLengthRead(level: nat, offset: nat, rest: seq<bool>)
    requires level <= 1 && offset < HistorySize(level)
    ensures var bad := Emit(OffsetCode(level, offset)) + (Ones(if level == 1 then 15 else 12) + rest);
            |bad| >= 8 && ReadToken(level, bad) == BadLength
  {
    hide Emit, OffsetCode, Window, Accumulator, ReadOffset, ReadLength;
    var n := if level == 1 then 15 else 12;
    var front, back := Emit(OffsetCode(level, offset)), Ones(n) + rest;
    OffsetRoundTrip(level, offset, back);
    ShiftFront(front, back);
    RefusedLength(level, back);
    WindowFront(back, n);
    assert |front| >= 10;
  }

  lemma WindowFront(b: seq<bool>, n: nat)
    requires n <= |b| && n <= 32
    ensures Window(b)[..n] == b[..n]
  {
  }
}
