/** The variable-length bit code of MPPC tokens, as the compressor writes it and as the
    decompressor reads it from a 32-bit accumulator (libfreerdp/codec/mppc.c). The 8K form follows
    section 4 of RFC 2118; the levels are those of section 3.1.8 of [MS-RDPBCGR]. */
module MppcCode {
  import opened Bits

  datatype Token = Literal(symbol: byte) | Copy(offset: nat, length: nat)

  /** A value written with BitStream_Write_Bits and its width. */
  datatype Code = Code(value: nat, width: nat)

  function Emit(c: Code): (b: seq<bool>)
    ensures |b| == c.width
  {
    ToBits(c.value, c.width)
  }

  // ----- what the compressor writes

  function LiteralCode(symbol: byte): Code {
    if symbol < 0x80 then Code(symbol, 8) else Code(0x100 + symbol % 0x80, 9)
  }

  function OffsetCode(level: nat, offset: nat): Code {
    if level != 0 then
      if offset < 64 then Code(0x07C0 + offset % 64, 11)
      else if offset < 320 then Code(0x1E00 + (offset - 64) % 256, 13)
      else if offset < 2368 then Code(0x7000 + (offset - 320) % 2048, 15)
      else Code(0x060000 + (offset - 2368) % 65536, 19)
    else
      if offset < 64 then Code(0x03C0 + offset % 64, 10)
      else if offset < 320 then Code(0x0E00 + (offset - 64) % 256, 12)
      else if offset < 8192 then Code(0xC000 + (offset - 320) % 8192, 16)
      else Code(0, 0)
  }

  function LengthCode(level: nat, length: nat): Code {
    if length == 3 then Code(0, 1)
    else if 4 <= length < 8 then Code(0x0008 + length % 4, 4)
    else if 8 <= length < 16 then Code(0x0030 + length % 8, 6)
    else if 16 <= length < 32 then Code(0x00E0 + length % 16, 8)
    else if 32 <= length < 64 then Code(0x03C0 + length % 32, 10)
    else if 64 <= length < 128 then Code(0x0F80 + length % 64, 12)
    else if 128 <= length < 256 then Code(0x3F00 + length % 128, 14)
    else if 256 <= length < 512 then Code(0xFE00 + length % 256, 16)
    else if 512 <= length < 1024 then Code(0x3FC00 + length % 512, 18)
    else if 1024 <= length < 2048 then Code(0xFF800 + length % 1024, 20)
    else if 2048 <= length < 4096 then Code(0x3FF000 + length % 2048, 22)
    else if 4096 <= length < 8192 then Code(0xFFE000 + length % 4096, 24)
    else if 8192 <= length < 16384 && level != 0 then Code(0x3FFC000 + length % 8192, 26)
    else if 16384 <= length < 32768 && level != 0 then Code(0xFFF8000 + length % 16384, 28)
    else if 32768 <= length < 65536 && level != 0 then Code(0x3FFF0000 + length % 32768, 30)
    else Code(0, 0)
  }

  function TokenBits(level: nat, t: Token): (b: seq<bool>)
    ensures |b| <= 49
  {
    match t
    case Literal(symbol) => Emit(LiteralCode(symbol))
    case Copy(offset, length) => Emit(OffsetCode(level, offset)) + Emit(LengthCode(level, length))
  }

  function AllBits(level: nat, ts: seq<Token>): seq<bool> {
    if ts == [] then [] else TokenBits(level, ts[0]) + AllBits(level, ts[1..])
  }

  /** The offsets and lengths a level can express. */
  predicate Codable(level: nat, t: Token) {
    t.Copy? ==>
      && t.offset < (if level != 0 then 65536 else 8192)
      && 3 <= t.length < (if level != 0 then 65536 else 8192)
  }

  // ----- what the decompressor reads

  /** The next 32 bits, with zeros past the end of the stream. */
  function Window(b: seq<bool>): (w: seq<bool>)
    ensures |w| == 32
  {
    if |b| >= 32 then b[..32] else b + Zeros(32 - |b|)
  }

  function Accumulator(b: seq<bool>): (acc: nat)
    ensures acc < 0x1_0000_0000
  {
    FromBitsBound(Window(b));
    Pow32();
    FromBits(Window(b))
  }

  lemma Pow32()
    ensures Pow2(32) == 0x1_0000_0000
  {
    Powers();
    assert Pow2(32) == 2 * Pow2(31);
  }

  function Shift(b: seq<bool>, n: nat): (r: seq<bool>)
    ensures |r| <= |b|
    ensures n > 0 && |b| > 0 ==> |r| < |b|
  {
    if n <= |b| then b[n..] else []
  }

  /** A decoded field and the number of bits it took. */
  datatype Field = Field(value: nat, width: nat) | Invalid

  /** The copy-offset branches on the accumulator; the first two bits are 11. */
  function ReadOffset(level: nat, acc: nat): Field {
    if level != 0 then
      if acc / 0x800_0000 == 0x1F then Field((acc / 0x20_0000) % 64, 11)
      else if acc / 0x800_0000 == 0x1E then Field((acc / 0x8_0000) % 256 + 64, 13)
      else if acc / 0x1000_0000 == 0xE then Field((acc / 0x2_0000) % 2048 + 320, 15)
      else if acc / 0x2000_0000 == 6 then Field((acc / 0x2000) % 65536 + 2368, 19)
      else Invalid
    else
      if acc / 0x1000_0000 == 0xF then Field((acc / 0x40_0000) % 64, 10)
      else if acc / 0x1000_0000 == 0xE then Field((acc / 0x10_0000) % 256 + 64, 12)
      else if acc / 0x2000_0000 == 6 then Field((acc / 0x1_0000) % 8192 + 320, 16)
      else Invalid
  }

  function ReadLength(level: nat, acc: nat): (f: Field)
    ensures f.Field? ==> f.value >= 3
  {
    if acc / 0x8000_0000 == 0 then Field(3, 1)
    else if acc / 0x4000_0000 == 2 then Field((acc / 0x1000_0000) % 4 + 0x0004, 4)
    else if acc / 0x2000_0000 == 6 then Field((acc / 0x400_0000) % 8 + 0x0008, 6)
    else if acc / 0x1000_0000 == 0xE then Field((acc / 0x100_0000) % 16 + 0x0010, 8)
    else if acc / 0x800_0000 == 0x1E then Field((acc / 0x40_0000) % 32 + 0x0020, 10)
    else if acc / 0x400_0000 == 0x3E then Field((acc / 0x10_0000) % 64 + 0x0040, 12)
    else if acc / 0x200_0000 == 0x7E then Field((acc / 0x4_0000) % 128 + 0x0080, 14)
    else if acc / 0x100_0000 == 0xFE then Field((acc / 0x1_0000) % 256 + 0x0100, 16)
    else ReadLongLength(level, acc)
  }

  /** The branches for eight ones and more. */
  function ReadLongLength(level: nat, acc: nat): (f: Field)
    ensures f.Field? ==> f.value >= 512
  {
    if acc / 0x80_0000 == 0x1FE then Field((acc / 0x4000) % 512 + 0x0200, 18)
    else if acc / 0x40_0000 == 0x3FE then Field((acc / 0x1000) % 1024 + 0x0400, 20)
    else if acc / 0x20_0000 == 0x7FE then Field((acc / 0x400) % 2048 + 0x0800, 22)
    else if acc / 0x10_0000 == 0xFFE then Field((acc / 0x100) % 4096 + 0x1000, 24)
    else if acc / 0x8_0000 == 0x1FFE && level != 0 then Field((acc / 0x40) % 8192 + 0x2000, 26)
    else if acc / 0x4_0000 == 0x3FFE && level != 0 then Field((acc / 0x10) % 16384 + 0x4000, 28)
    else if acc / 0x2_0000 == 0x7FFE && level != 0 then Field((acc / 4) % 32768 + 0x8000, 30)
    else Invalid
  }

  datatype ReadResult = Read(token: Token, rest: seq<bool>) | BadOffset | BadLength

  /** A copy tuple: the offset, and the length behind it. */
  function ReadCopy(level: nat, b: seq<bool>): (r: ReadResult)
    ensures r.Read? && |b| > 0 ==> |r.rest| < |b|
    ensures r.Read? ==> r.token.Copy? && r.token.length >= 3
  {
    match ReadOffset(level, Accumulator(b))
    case Invalid => BadOffset
    case Field(offset, n) =>
      match ReadLength(level, Accumulator(Shift(b, n)))
      case Invalid => BadLength
      case Field(length, k) => Read(Copy(offset, length), Shift(Shift(b, n), k))
  }

  function ReadToken(level: nat, b: seq<bool>): (r: ReadResult)
    ensures r.Read? && |b| > 0 ==> |r.rest| < |b|
    ensures r.Read? && r.token.Copy? ==> r.token.length >= 3
  {
    var acc := Accumulator(b);
    if acc / 0x8000_0000 == 0 then Read(Literal((acc / 0x100_0000) % 128), Shift(b, 8))
    else if acc / 0x4000_0000 == 2 then Read(Literal((acc / 0x80_0000) % 128 + 0x80), Shift(b, 9))
    else ReadCopy(level, b)
  }

  // ----- the code is self-delimiting

  /** A field written at the front of the stream is what the top bits of the accumulator hold. */
  lemma AccumulatorTop(c: Code, rest: seq<bool>)
    requires c.width <= 32 && c.value < Pow2(c.width)
    ensures Accumulator(Emit(c) + rest) / Pow2(32 - c.width) == c.value
  {
    hide Window, Pow2, FromBits, ToBits;
    var tail := WindowTail(Emit(c), rest);
    FromConcat(Emit(c), tail);
    FromTo(c.value, c.width);
    SmallMod(c.value, Pow2(c.width));
    FromBitsBound(tail);
    TopDigit(Accumulator(Emit(c) + rest), c.value, Pow2(32 - c.width), FromBits(tail));
  }

  lemma WindowTail(front: seq<bool>, rest: seq<bool>) returns (tail: seq<bool>)
    requires |front| <= 32
    ensures |tail| == 32 - |front| && Window(front + rest) == front + tail
  {
    tail := Window(front + rest)[|front|..];
  }

  lemma TopDigit(acc: nat, v: nat, p: nat, low: nat)
    requires acc == v * p + low && low < p
    ensures acc / p == v
  {
    DivModUnique(acc, p, v, low);
  }

  lemma SmallMod(v: nat, p: nat)
    requires v < p
    ensures v % p == v
  {
  }

  lemma Powers()
    ensures Pow2(1) == 2 && Pow2(4) == 16 && Pow2(6) == 64 && Pow2(8) == 256 && Pow2(9) == 512 && Pow2(10) == 1024
    ensures Pow2(11) == 2048 && Pow2(12) == 4096 && Pow2(13) == 8192 && Pow2(14) == 16384 && Pow2(15) == 0x8000
    ensures Pow2(16) == 0x1_0000 && Pow2(18) == 0x4_0000 && Pow2(19) == 0x8_0000 && Pow2(20) == 0x10_0000
    ensures Pow2(22) == 0x40_0000 && Pow2(24) == 0x100_0000 && Pow2(26) == 0x400_0000 && Pow2(28) == 0x1000_0000
    ensures Pow2(30) == 0x4000_0000 && Pow2(31) == 0x8000_0000 && Pow2(17) == 0x2_0000 && Pow2(21) == 0x20_0000
    ensures Pow2(23) == 0x80_0000 && Pow2(2) == 4
  {
    assert Pow2(16) == 0x1_0000;
    assert Pow2(24) == 0x100_0000;
  }

  // Each class of the code is decided and read back from the top bits of the accumulator.

  lemma ReadsOffsetRdp5From0(offset: nat, acc: nat)
    requires 0 <= offset < 64 && acc / 0x200000 == OffsetCode(1, offset).value
    ensures ReadOffset(1, acc) == Field(offset, 11) && acc / 0x4000_0000 == 3
  {
  }

  lemma ReadsOffsetRdp5From64(offset: nat, acc: nat)
    requires 64 <= offset < 320 && acc / 0x80000 == OffsetCode(1, offset).value
    ensures ReadOffset(1, acc) == Field(offset, 13) && acc / 0x4000_0000 == 3
  {
  }

  lemma ReadsOffsetRdp5From320(offset: nat, acc: nat)
    requires 320 <= offset < 2368 && acc / 0x20000 == OffsetCode(1, offset).value
    ensures ReadOffset(1, acc) == Field(offset, 15) && acc / 0x4000_0000 == 3
  {
  }

  lemma ReadsOffsetRdp5From2368(offset: nat, acc: nat)
    requires 2368 <= offset < 65536 && acc / 0x2000 == OffsetCode(1, offset).value
    ensures ReadOffset(1, acc) == Field(offset, 19) && acc / 0x4000_0000 == 3
  {
  }

  lemma ReadsOffsetRdp4From0(offset: nat, acc: nat)
    requires 0 <= offset < 64 && acc / 0x400000 == OffsetCode(0, offset).value
    ensures ReadOffset(0, acc) == Field(offset, 10) && acc / 0x4000_0000 == 3
  {
  }

  lemma ReadsOffsetRdp4From64(offset: nat, acc: nat)
    requires 64 <= offset < 320 && acc / 0x100000 == OffsetCode(0, offset).value
    ensures ReadOffset(0, acc) == Field(offset, 12) && acc / 0x4000_0000 == 3
  {
  }

  lemma ReadsOffsetRdp4From320(offset: nat, acc: nat)
    requires 320 <= offset < 8192 && acc / 0x10000 == OffsetCode(0, offset).value
    ensures ReadOffset(0, acc) == Field(offset, 16) && acc / 0x4000_0000 == 3
  {
  }

  lemma OffsetRoundTrip(level: nat, offset: nat, rest: seq<bool>)
    requires level <= 1 && offset < (if level != 0 then 65536 else 8192)
    ensures var c := OffsetCode(level, offset);
            && 10 <= c.width <= 19
            && ReadOffset(level, Accumulator(Emit(c) + rest)) == Field(offset, c.width)
            && Accumulator(Emit(c) + rest) / 0x4000_0000 == 3
  {
    Powers();
    var c := OffsetCode(level, offset);
    AccumulatorTop(c, rest);
    var acc := Accumulator(Emit(c) + rest);
    if level == 1 {
      if offset < 64 { ReadsOffsetRdp5From0(offset, acc); }
      else if offset < 320 { ReadsOffsetRdp5From64(offset, acc); }
      else if offset < 2368 { ReadsOffsetRdp5From320(offset, acc); }
      else { ReadsOffsetRdp5From2368(offset, acc); }
    } else {
      if offset < 64 { ReadsOffsetRdp4From0(offset, acc); }
      else if offset < 320 { ReadsOffsetRdp4From64(offset, acc); }
      else { ReadsOffsetRdp4From320(offset, acc); }
    }
  }

  lemma ReadsLengthFrom3(level: nat, length: nat, acc: nat)
    requires 3 <= length < 8
    requires 3 <= length < 4 ==> acc / 0x8000_0000 == LengthCode(level, length).value
    requires 4 <= length < 8 ==> acc / 0x1000_0000 == LengthCode(level, length).value
    ensures ReadLength(level, acc) == Field(length, LengthCode(level, length).width)
  {
  }

  lemma ReadsLengthFrom8(level: nat, length: nat, acc: nat)
    requires 8 <= length < 32
    requires 8 <= length < 16 ==> acc / 0x400_0000 == LengthCode(level, length).value
    requires 16 <= length < 32 ==> acc / 0x100_0000 == LengthCode(level, length).value
    ensures ReadLength(level, acc) == Field(length, LengthCode(level, length).width)
  {
    if length < 16 {
      assert 0xC000_0000 <= acc < 0xE000_0000;
    } else {
      assert 0xE000_0000 <= acc < 0xF000_0000;
    }
  }

  lemma ReadsLengthFrom32(level: nat, length: nat, acc: nat)
    requires 32 <= length < 64 && acc / 0x40_0000 == LengthCode(level, length).value
    ensures ReadLength(level, acc) == Field(length, LengthCode(level, length).width)
  {
  }

  lemma ReadsLengthFrom64(level: nat, length: nat, acc: nat)
    requires 64 <= length < 128 && acc / 0x10_0000 == LengthCode(level, length).value
    ensures ReadLength(level, acc) == Field(length, LengthCode(level, length).width)
  {
  }

  lemma ReadsLengthFrom128(level: nat, length: nat, acc: nat)
    requires 128 <= length < 256 && acc / 0x4_0000 == LengthCode(level, length).value
    ensures ReadLength(level, acc) == Field(length, LengthCode(level, length).width)
  {
  }

  lemma ReadsLengthFrom256(level: nat, length: nat, acc: nat)
    requires 256 <= length < 512 && acc / 0x1_0000 == LengthCode(level, length).value
    ensures ReadLength(level, acc) == Field(length, LengthCode(level, length).width)
  {
  }

  lemma EightOnes(level: nat, acc: nat)
    requires 0xFF00_0000 <= acc < 0x1_0000_0000
    ensures ReadLength(level, acc) == ReadLongLength(level, acc)
  {
    hide ReadLongLength;
    assert acc / 0x100_0000 == 0xFF;
  }

  lemma ReadsLengthFrom512(level: nat, length: nat, acc: nat)
    requires 512 <= length < 1024 && acc / 0x4000 == LengthCode(level, length).value
    ensures ReadLength(level, acc) == Field(length, LengthCode(level, length).width)
  {
    EightOnes(level, acc);
  }

  lemma ReadsLengthFrom1024(level: nat, length: nat, acc: nat)
    requires 1024 <= length < 2048 && acc / 0x1000 == LengthCode(level, length).value
    ensures ReadLength(level, acc) == Field(length, LengthCode(level, length).width)
  {
    EightOnes(level, acc);
    assert 0xFF80_0000 <= acc < 0xFFC0_0000;
  }

  lemma ReadsLengthFrom2048(level: nat, length: nat, acc: nat)
    requires 2048 <= length < 4096 && acc / 0x400 == LengthCode(level, length).value
    ensures ReadLength(level, acc) == Field(length, LengthCode(level, length).width)
  {
    EightOnes(level, acc);
    assert 0xFFC0_0000 <= acc < 0xFFE0_0000;
  }

  lemma ReadsLengthFrom4096(level: nat, length: nat, acc: nat)
    requires 4096 <= length < 8192 && acc / 0x100 == LengthCode(level, length).value
    ensures ReadLength(level, acc) == Field(length, LengthCode(level, length).width)
  {
    EightOnes(level, acc);
    assert 0xFFE0_0000 <= acc < 0xFFF0_0000;
  }

  lemma ReadsLengthFrom8192(level: nat, length: nat, acc: nat)
    requires 8192 <= length < 16384 && level != 0 && acc / 0x40 == LengthCode(level, length).value
    ensures ReadLength(level, acc) == Field(length, LengthCode(level, length).width)
  {
    EightOnes(level, acc);
    assert 0xFFF0_0000 <= acc < 0xFFF8_0000;
  }

  lemma ReadsLengthFrom16384(level: nat, length: nat, acc: nat)
    requires 16384 <= length < 32768 && level != 0 && acc / 0x10 == LengthCode(level, length).value
    ensures ReadLength(level, acc) == Field(length, LengthCode(level, length).width)
  {
    EightOnes(level, acc);
    assert 0xFFF8_0000 <= acc < 0xFFFC_0000;
  }

  lemma ReadsLengthFrom32768(level: nat, length: nat, acc: nat)
    requires 32768 <= length < 65536 && level != 0 && acc / 0x4 == LengthCode(level, length).value
    ensures ReadLength(level, acc) == Field(length, LengthCode(level, length).width)
  {
    EightOnes(level, acc);
    assert 0xFFFC_0000 <= acc < 0xFFFE_0000;
  }

  lemma LengthRoundTrip(level: nat, length: nat, rest: seq<bool>)
    requires level <= 1 && 3 <= length < (if level != 0 then 65536 else 8192)
    ensures var c := LengthCode(level, length);
            && 1 <= c.width <= 30
            && ReadLength(level, Accumulator(Emit(c) + rest)) == Field(length, c.width)
  {
    Powers();
    AccumulatorTop(LengthCode(level, length), rest);
    var acc := Accumulator(Emit(LengthCode(level, length)) + rest);
    if length < 8 { ReadsLengthFrom3(level, length, acc); }
    else if length < 32 { ReadsLengthFrom8(level, length, acc); }
    else if length < 64 { ReadsLengthFrom32(level, length, acc); }
    else if length < 128 { ReadsLengthFrom64(level, length, acc); }
    else if length < 256 { ReadsLengthFrom128(level, length, acc); }
    else if length < 512 { ReadsLengthFrom256(level, length, acc); }
    else if length < 1024 { ReadsLengthFrom512(level, length, acc); }
    else if length < 2048 { ReadsLengthFrom1024(level, length, acc); }
    else if length < 4096 { ReadsLengthFrom2048(level, length, acc); }
    else if length < 8192 { ReadsLengthFrom4096(level, length, acc); }
    else if length < 16384 { ReadsLengthFrom8192(level, length, acc); }
    else if length < 32768 { ReadsLengthFrom16384(level, length, acc); }
    else { ReadsLengthFrom32768(level, length, acc); }
  }

  lemma ReadsLowLiteral(symbol: byte, acc: nat)
    requires symbol < 0x80 && acc / 0x100_0000 == symbol
    ensures acc / 0x8000_0000 == 0 && (acc / 0x100_0000) % 128 == symbol
  {
  }

  lemma ReadsHighLiteral(symbol: byte, acc: nat)
    requires symbol >= 0x80 && acc / 0x80_0000 == 0x100 + symbol % 0x80
    ensures acc / 0x8000_0000 == 1 && acc / 0x4000_0000 == 2 && (acc / 0x80_0000) % 128 + 0x80 == symbol
  {
  }

  lemma LiteralRoundTrip(level: nat, symbol: byte, rest: seq<bool>)
    ensures ReadToken(level, Emit(LiteralCode(symbol)) + rest) == Read(Literal(symbol), rest)
  {
    Powers();
    var c := LiteralCode(symbol);
    AccumulatorTop(c, rest);
    if symbol < 0x80 {
      ReadsLowLiteral(symbol, Accumulator(Emit(c) + rest));
    } else {
      ReadsHighLiteral(symbol, Accumulator(Emit(c) + rest));
    }
    ShiftFront(Emit(c), rest);
  }

  lemma ShiftFront(front: seq<bool>, rest: seq<bool>)
    ensures Shift(front + rest, |front|) == rest
  {
  }

  /** The code is self-delimiting: a token at the front of any stream is read back, and what
      follows it is left. No token is shorter than a byte. */
  lemma TokenRoundTrip(level: nat, t: Token, rest: seq<bool>)
    requires level <= 1 && Codable(level, t)
    ensures ReadToken(level, TokenBits(level, t) + rest) == Read(t, rest)
    ensures 8 <= |TokenBits(level, t)| <= (if t.Literal? then 9 else 49)
  {
    match t
    case Literal(symbol) => LiteralRoundTrip(level, symbol, rest);
    case Copy(offset, length) =>
      var o, l := Emit(OffsetCode(level, offset)), Emit(LengthCode(level, length));
      assert o + l + rest == o + (l + rest);
      OffsetRoundTrip(level, offset, l + rest);
      LengthRoundTrip(level, length, rest);
      ShiftFront(o, l + rest);
      ShiftFront(l, rest);
  }
}
