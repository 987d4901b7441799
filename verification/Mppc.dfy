/** MPPC_CONTEXT and its operations as the C code runs them: the history and match buffers are arrays
    written in place, and packets go through a winpr bit stream. Every method is tied to its function on
    values. */
module Mppc {
  import opened Basics
  import opened BitStream
  import opened Bits
  import opened MppcCode
  import opened MppcHistory
  import opened MppcEncoder
  import opened MppcSession

  /** What the decompressor finds at the front of the stream. */
  datatype Found = Token(token: Token) | NoOffset | NoLength

  class MppcContext {
    const historyBuffer: array<byte>
    const matchBuffer: array<u16>
    var historyPtr: nat
    var historyOffset: nat
    var historyBufferSize: nat
    var compressionLevel: nat

    ghost predicate Valid()
      reads this
    {
      && historyBuffer.Length == HISTORY_BYTES && matchBuffer.Length == TABLE_SIZE
      && (historyBuffer as object) != (matchBuffer as object)
      && compressionLevel <= 1 && historyBufferSize == HistorySize(compressionLevel)
      && historyPtr <= HISTORY_BYTES + 1
    }

    /** The stream has a buffer of its own. */
    ghost predicate Apart(bs: WinprBitStream)
      reads this
    {
      bs.buffer != historyBuffer && (bs.buffer as object) != (matchBuffer as object)
    }

    /** A context that only decompresses never writes its match buffer. */
    ghost predicate Idle()
      reads this, matchBuffer
    {
      forall k :: 0 <= k < matchBuffer.Length ==> matchBuffer[k] == 0
    }

    /** This context as a compressor. */
    ghost function Enc(): Encoder
      reads this, historyBuffer, matchBuffer
      requires Valid()
    {
      Encoder(compressionLevel, historyBuffer[..], matchBuffer[..], historyPtr, historyOffset)
    }

    /** This context as a decompressor. */
    ghost function Dec(): Decoder
      reads this, historyBuffer
      requires Valid()
    {
      Decoder(compressionLevel, historyBuffer[..], historyPtr)
    }

    /** mppc_context_new. */
    constructor (level: nat)
      ensures Valid() && fresh(historyBuffer) && fresh(matchBuffer)
      ensures Enc() == NewEncoder(if level < 1 then 0 else 1)
      ensures Dec() == Decoder(if level < 1 then 0 else 1, ZeroHistory(), 0) && Idle()
    {
      compressionLevel := if level < 1 then 0 else 1;
      historyBufferSize := if level < 1 then 8192 else 65536;
      historyBuffer := new byte[HISTORY_BYTES](_ => 0);
      matchBuffer := new u16[TABLE_SIZE](_ => 0);
      historyOffset, historyPtr := 0, 0;
      new;
      assert historyBuffer[..] == ZeroHistory() && matchBuffer[..] == ZeroTable();
    }

    /** mppc_context_reset. */
    method Reset(flush: bool)
      requires Valid()
      modifies this`historyPtr, this`historyOffset, historyBuffer, matchBuffer
      ensures Valid() && Enc() == MppcEncoder.Reset(old(Enc()), flush)
    {
      forall k | 0 <= k < historyBuffer.Length { historyBuffer[k] := 0; }
      forall k | 0 <= k < matchBuffer.Length { matchBuffer[k] := 0; }
      historyOffset := if flush then historyBufferSize + 1 else 0;
      historyPtr := historyOffset;
      assert historyBuffer[..] == ZeroHistory() && matchBuffer[..] == ZeroTable();
    }

    /** mppc_set_compression_level, which leaves the buffers and positions as they are. */
    method SetCompressionLevel(level: nat)
      requires Valid()
      modifies this`compressionLevel, this`historyBufferSize
      ensures Valid() && Enc() == old(Enc()).(level := if level < 1 then 0 else 1)
    {
      compressionLevel := if level < 1 then 0 else 1;
      historyBufferSize := if level < 1 then 8192 else 65536;
    }

    /** Byte m from the start of HistoryBuffer on, which MatchBuffer follows. */
    function MemoryAt(m: nat): (x: byte)
      reads this, historyBuffer, matchBuffer
      requires Valid()
      ensures x == MemoryByte(historyBuffer[..], matchBuffer[..], m)
    {
      if m < HISTORY_BYTES then historyBuffer[m]
      else
        var k := (m - HISTORY_BYTES) / 2;
        if k >= TABLE_SIZE then 0
        else if (m - HISTORY_BYTES) % 2 == 0 then matchBuffer[k] % 256 else matchBuffer[k] / 256
    }

    /** The match extension loop of mppc_compress. */
    method ExtendMatch(src: seq<byte>, match0: nat, hp0: nat, i0: nat) returns (m: nat, hp: nat, i: nat)
      requires Valid() && i0 < |src| && hp0 + (|src| - i0) <= HISTORY_BYTES
      modifies historyBuffer
      ensures Extension(historyBuffer[..], m, hp, i) ==
              Extend(src, matchBuffer[..], historyPtr, Extension(old(historyBuffer[..]), match0, hp0, i0))
    {
      hide Extend, MemoryByte;
      m, hp, i := match0, hp0, i0;
      ghost var goal := Extend(src, matchBuffer[..], historyPtr, Extension(historyBuffer[..], match0, hp0, i0));
      while src[i] == MemoryAt(m) && i < |src| - 1 && m <= historyPtr
        invariant i0 <= i < |src| && hp - hp0 == i - i0 == m - match0
        invariant goal == Extend(src, matchBuffer[..], historyPtr, Extension(historyBuffer[..], m, hp, i))
        decreases |src| - i
      {
        ghost var h := historyBuffer[..];
        ExtendMore(src, matchBuffer[..], historyPtr, Extension(h, m, hp, i));
        m := m + 1;
        historyBuffer[hp] := src[i];
        assert historyBuffer[..] == h[hp := src[i]];
        hp, i := hp + 1, i + 1;
      }
      ExtendStops(src, matchBuffer[..], historyPtr, Extension(historyBuffer[..], m, hp, i));
    }

    /** The scan state of a running mppc_compress call. */
    ghost function Now(hp: nat, i: nat, tokens: seq<Token>, bits: nat): Scan
      reads this, historyBuffer, matchBuffer
      requires Valid()
    {
      Scan(historyBuffer[..], matchBuffer[..], historyPtr, hp, i, tokens, bits)
    }

    /** The first lines of a turn: the symbol goes to the history, the table and the mark follow. */
    method PutFirst(src: seq<byte>, hp0: nat, i0: nat, ghost tokens: seq<Token>, ghost bits: nat) returns (m: nat)
      requires Valid() && i0 < |src| - 3 && hp0 + (|src| - i0) <= HISTORY_BYTES
      modifies historyBuffer, matchBuffer, this`historyPtr
      ensures Valid() && m == Candidate(src, old(Now(hp0, i0, tokens, bits)))
      ensures Now(hp0 + 1, i0 + 1, tokens, bits) == PutSymbol(src, old(Now(hp0, i0, tokens, bits)))
    {
      hide MatchIndex;
      var sym1, sym2, sym3 := src[i0], src[i0 + 1], src[i0 + 2];
      WriteSymbol(hp0, sym1);
      var hp := hp0 + 1;
      m := UpdateMatch(MatchIndex(sym1, sym2, sym3), hp);
      if historyPtr < hp {
        historyPtr := hp;
      }
    }

    /** `*HistoryPtr++ = *pSrcPtr++`. */
    method WriteSymbol(hp: nat, symbol: byte)
      requires Valid() && hp < HISTORY_BYTES
      modifies historyBuffer
      ensures historyBuffer[..] == old(historyBuffer[..])[hp := symbol]
    {
      historyBuffer[hp] := symbol;
    }

    /** The table entry before it is replaced by the position hp. */
    method UpdateMatch(index: nat, hp: nat) returns (m: nat)
      requires Valid() && index < TABLE_SIZE && 0 < hp < 0x1_0000
      modifies matchBuffer
      ensures m == old(matchBuffer[index])
      ensures matchBuffer[..] == if m != hp - 1 then old(matchBuffer[..])[index := hp] else old(matchBuffer[..])
    {
      m := matchBuffer[index];
      if m != hp - 1 {
        matchBuffer[index] := hp;
      }
    }

    /** One BitStream_Write_Bits of the compressor; a value outside its code writes nothing. */
    method WriteCode(bs: WinprBitStream, c: Code)
      requires bs.Writing() && c.width < 32 && c.value < Pow2(c.width)
      modifies bs, bs.buffer
      ensures bs.Writing() && bs.written == old(bs.written) + Emit(c)
    {
      if c.width > 0 {
        bs.WriteBits(c.value, c.width);
      } else {
        assert bs.written + Emit(c) == bs.written;
      }
    }

    /** A literal is written if the two bytes kept in reserve are there. */
    method WriteLiteral(dstSize: nat, symbol: byte, bs: WinprBitStream, ghost tokens: seq<Token>)
        returns (ok: bool)
      requires bs.Writing() && bs.written == AllBits(compressionLevel, tokens)
      modifies bs, bs.buffer
      ensures bs.Writing() && (ok <==> !(|old(bs.written)| / 8 + 2 > dstSize - 1))
      ensures ok ==> bs.written == AllBits(compressionLevel, tokens + [Literal(symbol)])
                     && |bs.written| == |old(bs.written)| + LiteralWidth(symbol)
    {
      hide AllBits, Pow2, Bits.ToBits;
      if bs.position / 8 + 2 > dstSize - 1 {
        return false;
      }
      BitsSnoc(compressionLevel, tokens, Literal(symbol));
      LiteralCodeFits(symbol);
      WriteCode(bs, LiteralCode(symbol));
      ok := true;
    }

    /** A copy tuple is written if the seven bytes kept in reserve are there. */
    method WriteCopy(dstSize: nat, offset: nat, length: nat, bs: WinprBitStream, ghost tokens: seq<Token>)
        returns (ok: bool)
      requires bs.Writing() && bs.written == AllBits(compressionLevel, tokens)
      modifies bs, bs.buffer
      ensures bs.Writing() && (ok <==> !(|old(bs.written)| / 8 + 7 > dstSize - 1))
      ensures ok ==> bs.written == AllBits(compressionLevel, tokens + [Copy(offset, length)])
                     && |bs.written| == |old(bs.written)| + CopyWidth(compressionLevel, offset, length)
    {
      hide OffsetCode, LengthCode, AllBits, Pow2, Bits.ToBits;
      if bs.position / 8 + 7 > dstSize - 1 {
        return false;
      }
      ghost var was := bs.written;
      BitsSnoc(compressionLevel, tokens, Copy(offset, length));
      CopyCodesFit(compressionLevel, offset, length);
      var first, second := OffsetCode(compressionLevel, offset), LengthCode(compressionLevel, length);
      WriteCode(bs, first);
      WriteCode(bs, second);
      assert was + (Emit(first) + Emit(second)) == was + Emit(first) + Emit(second);
      ok := true;
    }

    static lemma LiteralCodeFits(symbol: byte)
      ensures var c := LiteralCode(symbol); c.width < 32 && c.value < Pow2(c.width)
    {
      Powers();
    }

    static lemma CopyCodesFit(level: nat, offset: nat, length: nat)
      ensures var c := OffsetCode(level, offset); c.width < 32 && c.value < Pow2(c.width)
      ensures var c := LengthCode(level, length); c.width < 32 && c.value < Pow2(c.width)
    {
      Powers();
    }

    /** One turn of the main loop of mppc_compress. The comparisons read the memory unchecked. */
    method ScanTurn(src: seq<byte>, dstSize: nat, hp0: nat, i0: nat, bs: WinprBitStream, ghost tokens0: seq<Token>)
        returns (ok: bool, hp: nat, i: nat, ghost tokens: seq<Token>)
      requires Valid() && Apart(bs) && i0 < |src| - 3 && hp0 + (|src| - i0) <= HISTORY_BYTES
      requires bs.Writing() && bs.written == AllBits(compressionLevel, tokens0)
      modifies historyBuffer, matchBuffer, this`historyPtr, bs, bs.buffer
      ensures Valid() && bs.Writing()
      ensures var r := ScanStep(compressionLevel, src, dstSize, old(Now(hp0, i0, tokens0, |bs.written|)));
              ok == r.Some? && (ok ==> Now(hp, i, tokens, |bs.written|) == r.value)
      ensures ok ==> bs.written == AllBits(compressionLevel, tokens)
    {
      hide MatchIndex, LiteralWidth, CopyStep, AllBits, PutSymbol, Candidate, MemoryByte;
      tokens := tokens0;
      var m := PutFirst(src, hp0, i0, tokens0, |bs.written|);
      hp, i := hp0 + 1, i0 + 1;
      if m == 0 || src[i0] != MemoryAt(m - 1) || src[i0 + 1] != MemoryAt(m)
         || src[i0 + 2] != MemoryAt(m + 1) || m + 1 > historyPtr || m == hp - 1 || m == hp {
        ok := WriteLiteral(dstSize, src[i0], bs, tokens0);
        tokens := tokens0 + [Literal(src[i0])];
      } else {
        ok, hp, i, tokens := CopyTurn(src, dstSize, m, hp, i, bs, tokens0);
      }
    }

    /** The match branch of a turn. */
    method CopyTurn(src: seq<byte>, dstSize: nat, m: nat, hp0: nat, i0: nat, bs: WinprBitStream,
                    ghost tokens0: seq<Token>)
        returns (ok: bool, hp: nat, i: nat, ghost tokens: seq<Token>)
      requires Valid() && Apart(bs) && i0 + 2 < |src| && hp0 + (|src| - i0) <= HISTORY_BYTES
      requires bs.Writing() && bs.written == AllBits(compressionLevel, tokens0)
      modifies historyBuffer, bs, bs.buffer
      ensures Valid() && bs.Writing()
      ensures var r := CopyStep(compressionLevel, src, dstSize, m, old(Now(hp0, i0, tokens0, |bs.written|)));
              ok == r.Some? && (ok ==> Now(hp, i, tokens, |bs.written|) == r.value)
      ensures ok ==> bs.written == AllBits(compressionLevel, tokens)
    {
      hide CopyWidth, AllBits, Extend;
      var copyOffset := (hp0 - m) % historyBufferSize;
      ghost var h: History := historyBuffer[..];
      ghost var h1: History := h[hp0 := src[i0]];
      historyBuffer[hp0] := src[i0];
      historyBuffer[hp0 + 1] := src[i0 + 1];
      assert historyBuffer[..] == h1[hp0 + 1 := src[i0 + 1]];
      var m';
      m', hp, i := ExtendMatch(src, m + 2, hp0 + 2, i0 + 2);
      var lengthOfMatch := 3 + (i - (i0 + 2));
      ok := WriteCopy(dstSize, copyOffset, lengthOfMatch, bs, tokens0);
      tokens := tokens0 + [Copy(copyOffset, lengthOfMatch)];
    }

    /** The two loops of mppc_compress; ok is false when the packet has to be sent raw. */
    method ScanPacket(src: seq<byte>, dstSize: nat, hp0: nat, bs: WinprBitStream, ghost e: Encoder)
        returns (ok: bool, hp: nat, ghost tokens: seq<Token>)
      requires Valid() && Apart(bs) && e == Enc() && |src| <= HISTORY_BYTES && hp0 == StartScan(e, |src|).hp
      requires bs.Writing() && bs.written == []
      modifies historyBuffer, matchBuffer, this`historyPtr, bs, bs.buffer
      ensures Valid() && bs.Writing()
      ensures var r := ScanAll(e, src, dstSize);
              ok == r.Some? && (ok ==> Now(hp, |src|, tokens, |bs.written|) == r.value)
      ensures ok ==> bs.written == AllBits(e.level, tokens)
    {
      hide ScanStep, AllBits;
      var i := 0;
      hp, tokens := hp0, [];
      NoBits(e.level);
      ghost var goal := ScanMain(e.level, src, dstSize, StartScan(e, |src|));
      while i < |src| - 3
        invariant Valid() && i <= |src| && hp + (|src| - i) <= HISTORY_BYTES
        invariant bs.Writing() && bs.written == AllBits(e.level, tokens)
        invariant goal == ScanMain(e.level, src, dstSize, Now(hp, i, tokens, |bs.written|))
        decreases |src| - i
      {
        ok, hp, i, tokens := ScanTurn(src, dstSize, hp, i, bs, tokens);
        if !ok {
          return;
        }
      }
      ok, hp, tokens := ScanTrailing(src, dstSize, hp, i, bs, tokens);
    }

    /** The loop over the trailing symbols. */
    method ScanTrailing(src: seq<byte>, dstSize: nat, hp0: nat, i0: nat, bs: WinprBitStream,
                        ghost tokens0: seq<Token>)
        returns (ok: bool, hp: nat, ghost tokens: seq<Token>)
      requires Valid() && Apart(bs) && i0 <= |src| && hp0 + (|src| - i0) <= HISTORY_BYTES
      requires bs.Writing() && bs.written == AllBits(compressionLevel, tokens0)
      modifies historyBuffer, bs, bs.buffer
      ensures bs.Writing()
      ensures var r := ScanTail(src, dstSize, old(Now(hp0, i0, tokens0, |bs.written|)));
              ok == r.Some? && (ok ==> Now(hp, |src|, tokens, |bs.written|) == r.value)
      ensures ok ==> bs.written == AllBits(compressionLevel, tokens)
    {
      hide AllBits, LiteralWidth;
      var i := i0;
      hp, tokens := hp0, tokens0;
      ghost var goal := ScanTail(src, dstSize, Now(hp, i, tokens, |bs.written|));
      while i < |src|
        invariant i <= |src| && hp + (|src| - i) <= HISTORY_BYTES
        invariant bs.Writing() && bs.written == AllBits(compressionLevel, tokens)
        invariant goal == ScanTail(src, dstSize, Now(hp, i, tokens, |bs.written|))
      {
        ghost var h: History := historyBuffer[..];
        ok := WriteLiteral(dstSize, src[i], bs, tokens);
        if !ok {
          return;
        }
        tokens := tokens + [Literal(src[i])];
        historyBuffer[hp] := src[i];
        assert historyBuffer[..] == h[hp := src[i]];
        hp, i := hp + 1, i + 1;
      }
      ok := true;
    }

    static lemma NoBits(level: nat)
      ensures AllBits(level, []) == []
    {
    }

    /** mppc_compress. A compressed packet is in dst, a raw one is the source. */
    method Compress(src: seq<byte>, dst: array<byte>) returns (flags: Flags, size: nat)
      requires Valid() && 0 < |src| <= HISTORY_BYTES && dst.Length >= 1
      requires dst != historyBuffer && (dst as object) != (matchBuffer as object)
      modifies this`historyPtr, this`historyOffset, historyBuffer, matchBuffer, dst
      ensures Valid()
      ensures var (packet, e) := MppcEncoder.Compress(old(Enc()), src, dst.Length);
              && flags == packet.flags && size == |packet.data| && Enc() == e
              && (flags.compressed ==> size <= dst.Length && dst[..size] == packet.data)
              && (!flags.compressed ==> src == packet.data)
    {
      hide ScanAll, Pack, AllBits, MppcEncoder.Compress;
      ghost var e := Enc();
      var packetAtFront, packetFlushed := false, false;
      var offset := historyOffset;
      if !(historyOffset + |src| < historyBufferSize - 3 && historyOffset != 0) {
        packetFlushed := historyOffset == historyBufferSize + 1;
        offset, packetAtFront := 0, true;
      }
      var dstSize := if dst.Length > |src| then |src| else dst.Length;
      var bs := new WinprBitStream(dst, dstSize);
      var ok, hp, tokens := ScanPacket(src, dstSize, offset, bs, e);
      if !ok {
        RawPacket(e, src, dst.Length);
        Reset(true);
        return Flags(false, false, true, compressionLevel), |src|;
      }
      AllRoom(e, src, dstSize);
      CompressedPacket(e, src, dst.Length);
      size := FinishPacket(bs);
      historyPtr, historyOffset := hp, hp;
      flags := Flags(true, packetAtFront, packetFlushed, compressionLevel);
    }

    /** The last flush, and `((bs->position + 7) / 8)`. */
    method FinishPacket(bs: WinprBitStream) returns (size: nat)
      requires bs.Writing() && (|bs.written| + 7) / 8 <= bs.capacity
      modifies bs.buffer
      ensures size == |Pack(bs.written)| <= bs.buffer.Length && bs.buffer[..size] == Pack(bs.written)
    {
      hide Pack;
      bs.Finish();
      size := (bs.position + 7) / 8;
    }

    static lemma RawPacket(e: Encoder, src: seq<byte>, capacity: nat)
      requires |e.table| == TABLE_SIZE && 0 < |src| <= HISTORY_BYTES && capacity >= 1
      requires ScanAll(e, src, if capacity > |src| then |src| else capacity).None?
      ensures MppcEncoder.Compress(e, src, capacity) ==
              (Packet(Flags(false, false, true, e.level), src), MppcEncoder.Reset(e, true))
    {
    }

    static lemma CompressedPacket(e: Encoder, src: seq<byte>, capacity: nat)
      requires |e.table| == TABLE_SIZE && 0 < |src| <= HISTORY_BYTES && capacity >= 1
      requires ScanAll(e, src, if capacity > |src| then |src| else capacity).Some?
      ensures var st := ScanAll(e, src, if capacity > |src| then |src| else capacity).value;
              var atFront := !Continues(e, |src|);
              var flags := Flags(true, atFront, atFront && e.offset == HistorySize(e.level) + 1, e.level);
              MppcEncoder.Compress(e, src, capacity) ==
                (Packet(flags, Pack(AllBits(e.level, st.tokens))), Encoder(e.level, st.hist, st.table, st.hp, st.hp))
    {
      hide ScanAll, Pack, AllBits;
    }

    /** A packet that is not sent raw has room in the buffer. */
    static lemma AllRoom(e: Encoder, src: seq<byte>, dstSize: nat)
      requires e.level <= 1 && |e.table| == TABLE_SIZE && |src| <= HISTORY_BYTES && dstSize >= 1
      ensures var r := ScanAll(e, src, dstSize); r.Some? ==> (r.value.bits + 7) / 8 <= dstSize - 1
    {
      hide ScanMain, ScanTail;
      ScanRoom(e.level, src, dstSize, StartScan(e, |src|));
      if ScanMain(e.level, src, dstSize, StartScan(e, |src|)).Some? {
        TailRoom(src, dstSize, ScanMain(e.level, src, dstSize, StartScan(e, |src|)).value);
      }
    }

    /** The bytewise copy loop of mppc_decompress. */
    method CopyMatch(s: nat, d: nat, length: nat)
      requires Valid() && Idle() && d + length <= HISTORY_BYTES
      modifies historyBuffer
      ensures historyBuffer[..] == CopyBytes(old(historyBuffer[..]), s, d, length)
    {
      var k := 0;
      while k < length
        invariant k <= length
        invariant historyBuffer[..] == CopyBytes(old(historyBuffer[..]), s, d, k)
      {
        ghost var h: History := historyBuffer[..];
        historyBuffer[d + k] := MemoryAt(s + k);
        assert historyBuffer[..] == h[d + k := if s + k < |h| then h[s + k] else 0];
        k := k + 1;
      }
    }

    /** The branches on the accumulator of mppc_decompress. */
    method NextToken(bs: WinprBitStream) returns (r: Found)
      requires bs.Reading() && bs.position + 8 <= bs.length
      modifies bs
      ensures bs.Reading() && (r.Token? ==> bs.position >= old(bs.position) + 8)
      ensures var all := Unpack(bs.Bytes());
              match ReadToken(compressionLevel, Shift(all, old(bs.position)))
              case BadOffset => r == NoOffset
              case BadLength => r == NoLength
              case Read(token, rest) => r == Found.Token(token) && rest == Shift(all, bs.position)
    {
      hide Unpack, FromBits, Ahead, ReadOffset, ReadLength, ReadToken, Accumulator, Shift;
      ghost var all, p, level := Unpack(bs.Bytes()), bs.position, compressionLevel;
      ghost var b := Shift(all, p);
      AccumulatorAhead(all, p);
      var acc := FromBits(bs.accumulator);
      if acc / 0x8000_0000 == 0 {
        ReadsLow(level, b);
        ShiftTwice(all, p, 8);
        bs.Shift(8);
        return Found.Token(Literal(acc / 0x100_0000 % 128));
      }
      if acc / 0x4000_0000 == 2 {
        ReadsHigh(level, b);
        ShiftTwice(all, p, 9);
        bs.Shift(9);
        return Found.Token(Literal(acc / 0x80_0000 % 128 + 0x80));
      }
      ReadsCopy(level, b);
      r := NextCopy(bs, acc, all);
    }

    /** The offset and the length of a copy tuple. */
    method NextCopy(bs: WinprBitStream, acc: nat, ghost all: seq<bool>) returns (r: Found)
      requires bs.Reading() && all == Unpack(bs.Bytes()) && acc == Accumulator(Shift(all, bs.position))
      modifies bs
      ensures bs.Reading() && (r.Token? ==> bs.position >= old(bs.position) + 8)
      ensures match ReadCopy(compressionLevel, Shift(all, old(bs.position)))
              case BadOffset => r == NoOffset
              case BadLength => r == NoLength
              case Read(token, rest) => r == Found.Token(token) && rest == Shift(all, bs.position)
    {
      hide Unpack, FromBits, Ahead, ReadOffset, ReadLength, Accumulator, Shift;
      ghost var p := bs.position;
      var offset := ReadOffset(compressionLevel, acc);
      if offset.Invalid? {
        return NoOffset;
      }
      FieldWidths(compressionLevel, acc);
      ShiftTwice(all, p, offset.width);
      AccumulatorAhead(all, p + offset.width);
      bs.Shift(offset.width);
      var acc' := FromBits(bs.accumulator);
      var length := ReadLength(compressionLevel, acc');
      if length.Invalid? {
        return NoLength;
      }
      FieldWidths(compressionLevel, acc');
      ShiftTwice(all, p + offset.width, length.width);
      bs.Shift(length.width);
      r := Found.Token(Copy(offset.value, length.value));
    }

    static lemma ReadsLow(level: nat, b: seq<bool>)
      requires Accumulator(b) / 0x8000_0000 == 0
      ensures ReadToken(level, b) == Read(Literal(Accumulator(b) / 0x100_0000 % 128), Shift(b, 8))
    {
      hide Accumulator, Shift, ReadOffset, ReadLength;
    }

    static lemma ReadsHigh(level: nat, b: seq<bool>)
      requires Accumulator(b) / 0x8000_0000 != 0 && Accumulator(b) / 0x4000_0000 == 2
      ensures ReadToken(level, b) == Read(Literal(Accumulator(b) / 0x80_0000 % 128 + 0x80), Shift(b, 9))
    {
      hide Accumulator, Shift, ReadOffset, ReadLength;
    }

    static lemma ReadsCopy(level: nat, b: seq<bool>)
      requires Accumulator(b) / 0x8000_0000 != 0 && Accumulator(b) / 0x4000_0000 != 2
      ensures ReadToken(level, b) == ReadCopy(level, b)
    {
      hide Accumulator, Shift, ReadOffset, ReadLength;
    }

    static lemma ShiftTwice(b: seq<bool>, p: nat, n: nat)
      ensures Shift(Shift(b, p), n) == Shift(b, p + n)
    {
    }

    static lemma FieldWidths(level: nat, acc: nat)
      ensures ReadOffset(level, acc).Field? ==> 10 <= ReadOffset(level, acc).width < 32
      ensures ReadLength(level, acc).Field? ==> 1 <= ReadLength(level, acc).width < 32
    {
    }

    /** The decoding loop of mppc_decompress. */
    method DecodeLoop(pos: nat, bs: WinprBitStream) returns (hp: nat, failure: Option<Decoded>)
      requires Valid() && Idle() && Apart(bs) && pos <= HISTORY_BYTES && bs.Reading() && bs.position == 0
      modifies historyBuffer, bs
      ensures var r := Decode(compressionLevel, old(historyBuffer[..]), pos, Unpack(bs.Bytes()));
              match failure
              case None => r == Done(historyBuffer[..], hp)
              case Some(why) => r == why && !why.Done? && why.history == historyBuffer[..]
    {
      hide ReadToken, Unpack;
      ghost var all := Unpack(bs.Bytes());
      ghost var goal := Decode(compressionLevel, historyBuffer[..], pos, all);
      assert Shift(all, 0) == all;
      hp := pos;
      while bs.length - bs.position >= 8
        invariant bs.Reading() && all == Unpack(bs.Bytes())
        invariant goal == Decode(compressionLevel, historyBuffer[..], hp, Shift(all, bs.position))
        decreases bs.length - bs.position
      {
        if hp > historyBufferSize - 1 {
          failure := Some(OutOfRange(historyBuffer[..]));
          return;
        }
        var token := NextToken(bs);
        match token
        case NoOffset =>
          failure := Some(InvalidOffset(historyBuffer[..]));
          return;
        case NoLength =>
          failure := Some(InvalidLength(historyBuffer[..]));
          return;
        case Token(Literal(symbol)) =>
          ghost var h: History := historyBuffer[..];
          historyBuffer[hp] := symbol;
          assert historyBuffer[..] == h[hp := symbol];
          hp := hp + 1;
        case Token(Copy(offset, length)) =>
          if hp + length - 1 > historyBufferSize - 1 {
            failure := Some(Overflow(historyBuffer[..]));
            return;
          }
          CopyMatch(CopySource(compressionLevel, hp, offset), hp, length);
          hp := hp + length;
      }
      failure := None;
    }

    /** mppc_decompress. */
    method Decompress(data: array<byte>, size: nat, flags: Flags) returns (out: Output)
      requires Valid() && Idle() && historyPtr <= HISTORY_BYTES && size <= data.Length
      requires data != historyBuffer && (data as object) != (matchBuffer as object)
      modifies this`historyPtr, this`historyOffset, historyBuffer
      ensures Valid() && Idle()
      ensures (out, Dec()) == MppcSession.Decompress(old(Dec()), Packet(flags, data[..size]))
    {
      hide Decode, Unpack;
      var bs := new WinprBitStream(data, size);
      bs.Fetch();
      if flags.atFront {
        historyOffset, historyPtr := 0, 0;
      }
      if flags.flushed {
        historyOffset, historyPtr := 0, 0;
        forall k | 0 <= k < historyBufferSize { historyBuffer[k] := 0; }
        assert historyBuffer[..] == ZeroUsed(compressionLevel, old(historyBuffer[..]));
      }
      if !flags.compressed {
        return Plain(data[..size]);
      }
      var hp, failure := DecodeLoop(historyPtr, bs);
      match failure
      case Some(why) => return Error(why);
      case None =>
        out := Plain(historyBuffer[historyPtr..hp]);
        assert historyBuffer[historyPtr..hp] == historyBuffer[..][historyPtr..hp];
        historyPtr := hp;
    }
  }
}
