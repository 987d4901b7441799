/** Compressor and decompressor side by side over whole packet sequences. */
module MppcSession {
  import opened Basics
  import opened Bits
  import opened MppcCode
  import opened MppcHistory
  import opened MppcEncoder

  /** The decompressor's context: `pos` is the position of its HistoryPtr. */
  datatype Decoder = Decoder(level: nat, hist: History, pos: nat)

  /** What comes out of a packet, or a compressor that has run off its source. */
  datatype Output = Plain(data: seq<byte>) | Error(why: Decoded) | SourceOverrun

  /** ZeroMemory over the part of the buffer the level uses. */
  function ZeroUsed(level: nat, h: History): (r: History) {
    seq(HistorySize(level), _ => 0) + h[HistorySize(level)..]
  }

  /** mppc_decompress. */
  function Decompress(d: Decoder, p: Packet): (r: (Output, Decoder))
    requires d.pos <= HISTORY_BYTES
    ensures r.1.pos <= HISTORY_BYTES && r.1.level == d.level
  {
    var hist := if p.flags.flushed then ZeroUsed(d.level, d.hist) else d.hist;
    var pos := if p.flags.atFront || p.flags.flushed then 0 else d.pos;
    if !p.flags.compressed then (Plain(p.data), Decoder(d.level, hist, pos))
    else
      match Decode(d.level, hist, pos, Unpack(p.data))
      case Done(h, q) => (Plain(h[pos..q]), Decoder(d.level, h, q))
      case failure => (Error(failure), Decoder(d.level, failure.history, pos))
  }

  // ----- what the compressor keeps

  ghost predicate ZeroBeyond(level: nat, h: History) {
    forall k :: HistorySize(level) <= k < HISTORY_BYTES ==> h[k] == 0
  }

  ghost predicate TableBelow(table: seq<u16>, limit: int) {
    |table| == TABLE_SIZE && forall k :: 0 <= k < TABLE_SIZE ==> table[k] <= limit
  }

  /** Where a flush puts the position: one byte past the history, here of this level or of the larger one. */
  predicate PastHistory(level: nat, offset: nat) {
    offset == HistorySize(level) + 1 || offset == HistorySize(1) + 1
  }

  /** After a flush the mark is out of reach, but then no table entry is ahead of the scan. */
  ghost predicate MarkOK(level: nat, table: seq<u16>, mark: nat, hp: int) {
    && TableBelow(table, HistorySize(level) - 3)
    && (PastHistory(level, mark) ==> TableBelow(table, hp))
    && (!PastHistory(level, mark) ==> mark <= HistorySize(level) && mark < HISTORY_BYTES)
  }

  ghost predicate EncoderOK(e: Encoder) {
    && e.level <= 1 && ZeroBeyond(e.level, e.hist) && MarkOK(e.level, e.table, e.mark, 0)
    && e.mark == e.offset && (PastHistory(e.level, e.offset) ==> e.hist == ZeroHistory())
  }

  /** The two ends agree: same bytes, same write position, where a pending flush counts as the
      front of the buffer. */
  ghost predicate Mirrored(e: Encoder, d: Decoder) {
    && d.level == e.level && d.hist == e.hist
    && d.pos == (if PastHistory(e.level, e.offset) then 0 else e.offset)
  }

  /** The first i bytes of the source are at `base` in the history. */
  ghost predicate Written(src: seq<byte>, h: History, base: int, i: int) {
    && 0 <= i <= |src| && 0 <= base && base + i <= HISTORY_BYTES
    && forall k {:trigger src[k]} :: 0 <= k < i ==> h[base + k] == src[k]
  }

  /** The tokens written so far, replayed on the history the packet started with, give the history
      the compressor has now. */
  ghost predicate ScanOK(level: nat, src: seq<byte>, start: History, base: nat, st: Scan) {
    && level <= 1 && base + |src| <= HistorySize(level)
    && st.i <= |src| && st.hp == base + st.i
    && AllCodable(level, st.tokens) && AllFit(level, base, st.tokens) && TotalLength(st.tokens) == st.i
    && ApplyAll(level, start, base, st.tokens) == st.hist
    && st.bits == |AllBits(level, st.tokens)|
    && Written(src, st.hist, base, st.i) && ZeroBeyond(level, st.hist)
    && MarkOK(level, st.table, st.mark, st.hp)
  }

  lemma WrittenOn(src: seq<byte>, h: History, base: nat, i: nat)
    requires i < |src| && base + i < HISTORY_BYTES && Written(src, h, base, i)
    ensures Written(src, h[base + i := src[i]], base, i + 1)
  {
  }

  // ----- one copy tuple

  lemma WrapBack(size: nat, d: nat, s: nat)
    requires s < size && d < size
    ensures (d - (d - s) % size) % size == s
  {
    if s <= d {
      DivModUnique(d - s, size, 0, d - s);
      DivModUnique(s, size, 0, s);
    } else {
      WrapNegative(size, d - s);
      WrapNegative(size, s - size);
    }
  }

  lemma WrapNegative(size: nat, x: int)
    requires x < 0 < x + size
    ensures x % size == x + size
  {
  }

  /** The extension loop writes what a bytewise copy from s writes, byte for byte, and what it
      writes is the source. */
  lemma {:induction false} ExtendCopies(src: seq<byte>, table: seq<u16>, mark: nat, e: Extension, h: History,
                                        s: nat, d: nat, n: nat, base: nat)
    requires |table| == TABLE_SIZE && e.i <= |src| && e.hp + (|src| - e.i) <= HISTORY_BYTES
    requires mark < HISTORY_BYTES || s < d
    requires e.match_ == s + n && e.hp == d + n && e.hist == CopyBytes(h, s, d, n)
    requires e.hp == base + e.i && Written(src, e.hist, base, e.i)
    ensures var r := Extend(src, table, mark, e);
            var total := n + (r.i - e.i);
            && d + total <= HISTORY_BYTES
            && r.hist == CopyBytes(h, s, d, total)
            && Written(src, r.hist, base, r.i)
    decreases |src| - e.i
  {
    hide Extend;
    if e.i < |src| - 1 && e.match_ <= mark && src[e.i] == MemoryByte(e.hist, table, e.match_) {
      var next := Extension(e.hist[e.hp := src[e.i]], e.match_ + 1, e.hp + 1, e.i + 1);
      assert e.match_ < HISTORY_BYTES;
      assert CopyBytes(h, s, d, n + 1) == next.hist;
      WrittenOn(src, e.hist, base, e.i);
      ExtendMore(src, table, mark, e);
      ExtendCopies(src, table, mark, next, h, s, d, n + 1, base);
    } else {
      ExtendStops(src, table, mark, e);
    }
  }

  /** The first three bytes of a match: two of them are compared before anything but the first is
      written, which is why the positions just below the write position are excluded. */
  lemma FirstThree(h: History, s: nat, d: nat, sym1: byte, sym2: byte, sym3: byte)
    requires s + 3 <= HISTORY_BYTES && d + 3 <= HISTORY_BYTES && s != d && s + 1 != d
    requires var w := h[d := sym1]; w[s] == sym1 && w[s + 1] == sym2 && w[s + 2] == sym3
    ensures CopyBytes(h, s, d, 3) == h[d := sym1][d + 1 := sym2][d + 2 := sym3]
  {
    assert CopyBytes(h, s, d, 1) == h[d := sym1];
    assert CopyBytes(h, s, d, 2) == h[d := sym1][d + 1 := sym2];
  }

  /** The match branch writes what a bytewise copy writes, and all of it is source. */
  lemma CopyStepCopies(level: nat, src: seq<byte>, dstSize: nat, m: nat, st: Scan, h: History, base: nat)
    requires st.i + 2 < |src| && 0 < st.hp && st.hp + (|src| - st.i) <= HISTORY_BYTES
    requires m > 0 && |st.table| == TABLE_SIZE && (st.mark < HISTORY_BYTES || m < st.hp)
    requires st.hp == base + st.i && Written(src, st.hist, base, st.i)
    requires CopyBytes(h, m - 1, st.hp - 1, 3) == st.hist[st.hp := src[st.i]][st.hp + 1 := src[st.i + 1]]
    requires CopyStep(level, src, dstSize, m, st).Some?
    ensures var r := CopyStep(level, src, dstSize, m, st).value;
            var length := r.i - st.i + 1;
            && r.tokens == st.tokens + [Copy((st.hp - m) % HistorySize(level), length)] && length >= 3
            && st.hp - 1 + length <= HISTORY_BYTES
            && r.i < |src| && r.hist == CopyBytes(h, m - 1, st.hp - 1, length) && Written(src, r.hist, base, r.i)
  {
    hide CopyWidth, Extend, CopyBytes;
    var e := Extension(st.hist[st.hp := src[st.i]][st.hp + 1 := src[st.i + 1]], m + 2, st.hp + 2, st.i + 2);
    ExtendCopies(src, st.table, st.mark, e, h, m - 1, st.hp - 1, 3, base);
  }

  /** A copy tuple denotes exactly the source bytes it replaces: replayed byte by byte it gives the
      history the compressor wrote, also when it overlaps its own output or reaches into bytes from
      before a wrap. */
  lemma CopyTupleExact(level: nat, src: seq<byte>, dstSize: nat, st: Scan, base: nat)
    requires level <= 1 && base + |src| <= HistorySize(level)
    requires st.i < |src| - 3 && st.hp == base + st.i && Written(src, st.hist, base, st.i)
    requires |st.table| == TABLE_SIZE
    requires (st.mark <= HistorySize(level) && st.mark < HISTORY_BYTES) || Candidate(src, st) <= st.hp
    requires Matches(PutSymbol(src, st), Candidate(src, st), src[st.i], src[st.i + 1], src[st.i + 2])
    requires CopyStep(level, src, dstSize, Candidate(src, st), PutSymbol(src, st)).Some?
    ensures var r := CopyStep(level, src, dstSize, Candidate(src, st), PutSymbol(src, st)).value;
            var t := Copy((st.hp + 1 - Candidate(src, st)) % HistorySize(level), r.i - st.i);
            && r.tokens == st.tokens + [t]
            && Codable(level, t) && Fits(level, st.hp, t) && Apply(level, st.hist, st.hp, t) == r.hist
            && Written(src, r.hist, base, r.i)
  {
    hide CopyWidth, MatchIndex, CopyStep, CopyBytes;
    var m, next := Candidate(src, st), PutSymbol(src, st);
    FirstThree(st.hist, m - 1, st.hp, src[st.i], src[st.i + 1], src[st.i + 2]);
    CopyStepCopies(level, src, dstSize, m, next, st.hist, base);
    WrapBack(HistorySize(level), st.hp, m - 1);
  }

  // ----- the scan

  lemma PutSymbolKeeps(level: nat, src: seq<byte>, base: nat, st: Scan)
    requires level <= 1 && base + |src| <= HistorySize(level)
    requires st.i < |src| - 3 && st.hp == base + st.i && Written(src, st.hist, base, st.i) && ZeroBeyond(level, st.hist)
    requires MarkOK(level, st.table, st.mark, st.hp)
    ensures var next := PutSymbol(src, st);
            && Written(src, next.hist, base, next.i) && ZeroBeyond(level, next.hist)
            && MarkOK(level, next.table, next.mark, next.hp)
  {
    hide MatchIndex;
  }

  lemma {:induction false} ExtendZeroBeyond(level: nat, src: seq<byte>, table: seq<u16>, mark: nat, e: Extension)
    requires |table| == TABLE_SIZE
    requires e.i <= |src| && e.hp + (|src| - e.i) <= HistorySize(level) && ZeroBeyond(level, e.hist)
    ensures ZeroBeyond(level, Extend(src, table, mark, e).hist)
    decreases |src| - e.i
  {
    if e.i < |src| - 1 && e.match_ <= mark && src[e.i] == MemoryByte(e.hist, table, e.match_) {
      ExtendZeroBeyond(level, src, table, mark, Extension(e.hist[e.hp := src[e.i]], e.match_ + 1, e.hp + 1, e.i + 1));
    }
  }

  lemma CopyStepZeroBeyond(level: nat, src: seq<byte>, dstSize: nat, m: nat, st: Scan)
    requires st.i + 2 <= |src| && st.hp + (|src| - st.i) <= HistorySize(level) && ZeroBeyond(level, st.hist)
    requires |st.table| == TABLE_SIZE
    requires CopyStep(level, src, dstSize, m, st).Some?
    ensures ZeroBeyond(level, CopyStep(level, src, dstSize, m, st).value.hist)
  {
    ExtendZeroBeyond(level, src, st.table, st.mark,
      Extension(st.hist[st.hp := src[st.i]][st.hp + 1 := src[st.i + 1]], m + 2, st.hp + 2, st.i + 2));
  }

  /** One token more keeps the replay. */
  lemma TokenKeeps(level: nat, start: History, base: nat, tokens: seq<Token>, t: Token)
    requires AllCodable(level, tokens) && AllFit(level, base, tokens)
    requires Codable(level, t) && Fits(level, base + TotalLength(tokens), t)
    ensures var ts := tokens + [t];
            && AllCodable(level, ts) && AllFit(level, base, ts)
            && TotalLength(ts) == TotalLength(tokens) + TokenLength(t)
            && ApplyAll(level, start, base, ts)
                == Apply(level, ApplyAll(level, start, base, tokens), base + TotalLength(tokens), t)
            && |AllBits(level, ts)| == |AllBits(level, tokens)| + |TokenBits(level, t)|
  {
    hide TokenBits;
    ApplySnoc(level, start, base, tokens, t);
    BitsSnoc(level, tokens, t);
  }

  lemma ScanStepKeeps(level: nat, src: seq<byte>, dstSize: nat, start: History, base: nat, st: Scan)
    requires ScanOK(level, src, start, base, st) && st.i < |src| - 3 && ScanStep(level, src, dstSize, st).Some?
    ensures ScanOK(level, src, start, base, ScanStep(level, src, dstSize, st).value)
  {
    hide TokenBits, MatchIndex, Apply, LiteralWidth, CopyWidth;
    var m, next := Candidate(src, st), PutSymbol(src, st);
    PutSymbolKeeps(level, src, base, st);
    if Matches(next, m, src[st.i], src[st.i + 1], src[st.i + 2]) {
      CopyTupleExact(level, src, dstSize, st, base);
      CopyStepZeroBeyond(level, src, dstSize, m, next);
      CopyStepToken(level, src, dstSize, m, next, st.i);
      var length := ScanStep(level, src, dstSize, st).value.i - st.i;
      TokenKeeps(level, start, base, st.tokens, Copy((st.hp + 1 - m) % HistorySize(level), length));
    } else {
      LiteralFits(level, st.hist, st.hp, src[st.i]);
      TokenKeeps(level, start, base, st.tokens, Literal(src[st.i]));
    }
  }

  lemma CopyStepToken(level: nat, src: seq<byte>, dstSize: nat, m: nat, next: Scan, i: nat)
    requires next.i + 2 <= |src| && next.hp + (|src| - next.i) <= HISTORY_BYTES && next.i == i + 1
    requires |next.table| == TABLE_SIZE
    requires CopyStep(level, src, dstSize, m, next).Some?
    ensures var r := CopyStep(level, src, dstSize, m, next).value;
            r.bits == next.bits + |TokenBits(level, Copy((next.hp - m) % HistorySize(level), r.i - i))|
            && r.mark == next.mark
  {
  }

  lemma LiteralFits(level: nat, h: History, pos: nat, symbol: byte)
    requires pos < HistorySize(level)
    ensures Fits(level, pos, Literal(symbol)) && Apply(level, h, pos, Literal(symbol)) == h[pos := symbol]
    ensures |TokenBits(level, Literal(symbol))| == LiteralWidth(symbol)
  {
  }

  lemma {:induction false} ScanMainKeeps(level: nat, src: seq<byte>, dstSize: nat, start: History, base: nat, st: Scan)
    requires ScanOK(level, src, start, base, st) && ScanMain(level, src, dstSize, st).Some?
    ensures ScanOK(level, src, start, base, ScanMain(level, src, dstSize, st).value)
    decreases |src| - st.i
  {
    hide ScanStep, ApplyAll, AllBits, AllFit, AllCodable, TotalLength, Written, ZeroBeyond;
    if st.i < |src| - 3 {
      ScanStepKeeps(level, src, dstSize, start, base, st);
      ScanMainKeeps(level, src, dstSize, start, base, ScanStep(level, src, dstSize, st).value);
    }
  }

  lemma {:induction false} ScanTailKeeps(level: nat, src: seq<byte>, dstSize: nat, start: History, base: nat, st: Scan)
    requires ScanOK(level, src, start, base, st) && ScanTail(src, dstSize, st).Some?
    ensures ScanOK(level, src, start, base, ScanTail(src, dstSize, st).value)
    decreases |src| - st.i
  {
    if st.i < |src| {
      var next := LiteralStep(dstSize, src[st.i], st).value;
      var st' := next.(hist := st.hist[st.hp := src[st.i]], hp := st.hp + 1, i := st.i + 1);
      TailStepKeeps(level, src, dstSize, start, base, st, st');
      ScanTailKeeps(level, src, dstSize, start, base, st');
    }
  }

  lemma TailStepKeeps(level: nat, src: seq<byte>, dstSize: nat, start: History, base: nat, st: Scan, st': Scan)
    requires ScanOK(level, src, start, base, st) && st.i < |src|
    requires st' == Scan(st.hist[st.hp := src[st.i]], st.table, st.mark, st.hp + 1, st.i + 1,
                         st.tokens + [Literal(src[st.i])], st.bits + LiteralWidth(src[st.i]))
    ensures ScanOK(level, src, start, base, st')
  {
    hide TokenBits, Apply, LiteralWidth;
    LiteralFits(level, st.hist, st.hp, src[st.i]);
    TokenKeeps(level, start, base, st.tokens, Literal(src[st.i]));
  }

  // ----- one packet

  lemma StartScanOK(e: Encoder, src: seq<byte>)
    requires EncoderOK(e) && |src| <= HistorySize(e.level)
    ensures var st := StartScan(e, |src|);
            ScanOK(e.level, src, e.hist, st.hp, st)
  {
  }

  lemma ScanAllKeeps(e: Encoder, src: seq<byte>, dstSize: nat)
    requires EncoderOK(e) && |src| <= HistorySize(e.level) && ScanAll(e, src, dstSize).Some?
    ensures ScanOK(e.level, src, e.hist, StartScan(e, |src|).hp, ScanAll(e, src, dstSize).value)
  {
    hide ScanOK, ScanMain, ScanTail;
    var st := StartScan(e, |src|);
    StartScanOK(e, src);
    ScanMainKeeps(e.level, src, dstSize, e.hist, st.hp, st);
    ScanTailKeeps(e.level, src, dstSize, e.hist, st.hp, ScanMain(e.level, src, dstSize, st).value);
  }

  /** What a packet does to a pair of mirrored ends: the decompressor returns the source, the
      buffers stay equal byte for byte and the write positions agree, whichever way the compressor
      went and whatever its match table holds. The compressor stays fit for more, unless the packet has
      filled all of the array. */
  lemma PacketRoundTrip(e: Encoder, d: Decoder, src: seq<byte>, capacity: nat)
    requires EncoderOK(e) && Mirrored(e, d)
    requires 0 < |src| <= HistorySize(e.level) && capacity >= 1
    ensures var (p, e') := Compress(e, src, capacity);
            var (out, d') := Decompress(d, p);
            && out == Plain(src) && Mirrored(e', d') && e'.level == e.level
            && (|src| < HISTORY_BYTES ==> EncoderOK(e'))
  {
    var dstSize := if capacity > |src| then |src| else capacity;
    if ScanAll(e, src, dstSize).None? {
      FlushRoundTrip(e, d, src, capacity);
    } else {
      CompressedRoundTrip(e, d, src, capacity);
    }
  }

  /** A compressed packet that is longer than the history of its level does not come out. */
  lemma LongPacketLost(e: Encoder, d: Decoder, src: seq<byte>, capacity: nat)
    requires |e.table| == TABLE_SIZE && HistorySize(e.level) < |src| <= HISTORY_BYTES && capacity >= 1
    requires d.level == e.level && d.pos <= HISTORY_BYTES && Compress(e, src, capacity).0.flags.compressed
    ensures Decompress(d, Compress(e, src, capacity).0).0 != Plain(src)
  {
    hide Compress, Decompress;
    DecodedFitsHistory(d, Compress(e, src, capacity).0);
  }

  /** Whatever a compressed packet holds, no more than the history comes out. */
  lemma DecodedFitsHistory(d: Decoder, p: Packet)
    requires d.pos <= HISTORY_BYTES
    ensures var out := Decompress(d, p).0;
            if p.flags.compressed then out.Plain? ==> |out.data| <= HistorySize(d.level) else out == Plain(p.data)
  {
    hide Decode;
  }

  lemma ZeroUsedIsZero(level: nat, h: History)
    requires ZeroBeyond(level, h)
    ensures ZeroUsed(level, h) == ZeroHistory()
  {
  }

  lemma FlushRoundTrip(e: Encoder, d: Decoder, src: seq<byte>, capacity: nat)
    requires EncoderOK(e) && Mirrored(e, d)
    requires 0 < |src| <= HistorySize(e.level) && capacity >= 1
    requires ScanAll(e, src, if capacity > |src| then |src| else capacity).None?
    ensures var (p, e') := Compress(e, src, capacity);
            var (out, d') := Decompress(d, p);
            out == Plain(src) && EncoderOK(e') && Mirrored(e', d') && e'.level == e.level
  {
    hide ScanAll;
    ZeroUsedIsZero(e.level, e.hist);
  }

  lemma CompressedRoundTrip(e: Encoder, d: Decoder, src: seq<byte>, capacity: nat)
    requires EncoderOK(e) && Mirrored(e, d)
    requires 0 < |src| <= HistorySize(e.level) && capacity >= 1
    requires ScanAll(e, src, if capacity > |src| then |src| else capacity).Some?
    ensures var (p, e') := Compress(e, src, capacity);
            var (out, d') := Decompress(d, p);
            && out == Plain(src) && Mirrored(e', d') && e'.level == e.level
            && (|src| < HISTORY_BYTES ==> EncoderOK(e'))
  {
    hide ScanAll, Decode, Unpack, Pack, AllBits;
    var dstSize := if capacity > |src| then |src| else capacity;
    var st, base := ScanAll(e, src, dstSize).value, StartScan(e, |src|).hp;
    ScanAllKeeps(e, src, dstSize);
    ZeroUsedIsZero(e.level, e.hist);
    var bits := AllBits(e.level, st.tokens);
    var padding := Zeros(8 * ((|bits| + 7) / 8) - |bits|);
    UnpackPack(bits);
    DecodeAppliesTokens(e.level, e.hist, base, st.tokens, padding);
    assert st.hist[base..base + |src|] == src;
  }

  // ----- the size of a compressed packet

  /** The reserve of two or seven bytes that is checked before a token covers the token. */
  lemma ScanStepRoom(level: nat, src: seq<byte>, dstSize: nat, st: Scan)
    requires level <= 1 && st.i < |src| - 3 && st.hp + (|src| - st.i) <= HISTORY_BYTES && |st.table| == TABLE_SIZE
    requires ScanStep(level, src, dstSize, st).Some?
    ensures (ScanStep(level, src, dstSize, st).value.bits + 7) / 8 <= dstSize - 1
  {
    hide MatchIndex, Extend, Matches;
    var m, next := Candidate(src, st), PutSymbol(src, st);
    if Matches(next, m, src[st.i], src[st.i + 1], src[st.i + 2]) {
      CopyStepRoom(level, src, dstSize, m, next);
    }
  }

  lemma CopyStepRoom(level: nat, src: seq<byte>, dstSize: nat, m: nat, st: Scan)
    requires st.i + 2 <= |src| && st.hp + (|src| - st.i) <= HISTORY_BYTES && |st.table| == TABLE_SIZE
    requires CopyStep(level, src, dstSize, m, st).Some?
    ensures (CopyStep(level, src, dstSize, m, st).value.bits + 7) / 8 <= dstSize - 1
  {
    hide CopyWidth, Extend;
    var r := CopyStep(level, src, dstSize, m, st).value;
    CopyWidthBound(level, (st.hp - m) % HistorySize(level), r.i - (st.i + 2) + 3);
  }

  lemma CopyWidthBound(level: nat, offset: nat, length: nat)
    ensures CopyWidth(level, offset, length) <= 49
  {
  }

  lemma {:induction false} ScanRoom(level: nat, src: seq<byte>, dstSize: nat, st: Scan)
    requires level <= 1 && st.i <= |src| && st.hp + (|src| - st.i) <= HISTORY_BYTES && |st.table| == TABLE_SIZE
    requires (st.bits + 7) / 8 <= dstSize - 1
    ensures var r := ScanMain(level, src, dstSize, st); r.Some? ==> (r.value.bits + 7) / 8 <= dstSize - 1
    decreases |src| - st.i
  {
    hide ScanStep;
    if st.i < |src| - 3 && ScanStep(level, src, dstSize, st).Some? {
      ScanStepRoom(level, src, dstSize, st);
      ScanRoom(level, src, dstSize, ScanStep(level, src, dstSize, st).value);
    }
  }

  lemma {:induction false} TailRoom(src: seq<byte>, dstSize: nat, st: Scan)
    requires st.i <= |src| && st.hp + (|src| - st.i) <= HISTORY_BYTES && (st.bits + 7) / 8 <= dstSize - 1
    ensures var r := ScanTail(src, dstSize, st); r.Some? ==> (r.value.bits + 7) / 8 <= dstSize - 1
    decreases |src| - st.i
  {
    if st.i < |src| && LiteralStep(dstSize, src[st.i], st).Some? {
      var next := LiteralStep(dstSize, src[st.i], st).value;
      TailRoom(src, dstSize, next.(hist := st.hist[st.hp := src[st.i]], hp := st.hp + 1, i := st.i + 1));
    }
  }

  /** A packet that is reported compressed is strictly shorter than both its source and the buffer;
      any other packet is the source itself. */
  lemma CompressedIsShorter(e: Encoder, src: seq<byte>, capacity: nat)
    requires EncoderOK(e) && 0 < |src| <= HistorySize(e.level) && capacity >= 1
    ensures var p := Compress(e, src, capacity).0;
            if p.flags.compressed then |p.data| < |src| && |p.data| < capacity else p.data == src && p.flags.flushed
  {
    hide ScanMain, ScanTail, ScanOK, AllBits;
    var dstSize := if capacity > |src| then |src| else capacity;
    if ScanAll(e, src, dstSize).Some? {
      ScanRoom(e.level, src, dstSize, StartScan(e, |src|));
      TailRoom(src, dstSize, ScanMain(e.level, src, dstSize, StartScan(e, |src|)).value);
      ScanAllKeeps(e, src, dstSize);
      ScanBits(e, src, dstSize);
    }
  }

  lemma ScanBits(e: Encoder, src: seq<byte>, dstSize: nat)
    requires |src| <= HistorySize(e.level) && |e.table| == TABLE_SIZE && ScanAll(e, src, dstSize).Some?
    requires ScanOK(e.level, src, e.hist, StartScan(e, |src|).hp, ScanAll(e, src, dstSize).value)
    ensures var st := ScanAll(e, src, dstSize).value; st.bits == |AllBits(e.level, st.tokens)|
  {
    hide ScanAll, AllBits;
  }

  // ----- whole sessions

  /** A packet to send, the compression level set for it and the output buffer offered for it. */
  datatype Send = Send(level: nat, src: seq<byte>, capacity: nat)

  /** What a session can be asked to send; the array has no room for more. */
  predicate Sendable(s: Send) {
    s.level <= 1 && |s.src| <= HISTORY_BYTES && s.capacity >= 1
  }

  /** Compresses, transmits and decompresses a sequence of packets, each at its level; the result is what
      comes out. A compressor that runs off its source ends the session. */
  ghost function Session(e: Encoder, d: Decoder, sends: seq<Send>): (r: (seq<Output>, Encoder, Decoder))
    requires |e.table| == TABLE_SIZE && d.pos <= HISTORY_BYTES
    requires forall i {:trigger sends[i]} :: 0 <= i < |sends| ==> Sendable(sends[i])
    decreases |sends|
  {
    if sends == [] then ([], e, d)
    else
      assert Sendable(sends[0]);
      StaysInsideIff(|sends[0].src|);
      if !StaysInside(|sends[0].src|) then ([SourceOverrun], e, d)
      else
        var (p, e') := CompressAt(e, sends[0]);
        var (out, d') := Decompress(d.(level := p.flags.level), p);
        var (outs, e'', d'') := Session(e', d', sends[1..]);
        ([out] + outs, e'', d'')
  }

  /** mppc_set_compression_level and mppc_compress, as bulk_compress calls them. */
  function CompressAt(e: Encoder, s: Send): (r: (Packet, Encoder))
    requires |e.table| == TABLE_SIZE && Sendable(s) && |s.src| > 0
    ensures |r.1.table| == TABLE_SIZE && r.0.flags.level == r.1.level == s.level
  {
    Compress(e.(level := s.level), s.src, s.capacity)
  }

  /** The compressor can go on at this level. Upwards it can unless a raw packet has just been sent, whose
      mark is an ordinary position of the larger history. Downwards it can after a raw packet, and as long
      as what it has used lies inside the smaller history. */
  ghost predicate Switchable(e: Encoder, level: nat) {
    || level == e.level
    || (level == 1 && e.offset != HistorySize(0) + 1)
    || (level == 0 && e.offset == HistorySize(1) + 1)
    || (level == 0 && e.offset <= HistorySize(0) && ZeroBeyond(0, e.hist) && TableBelow(e.table, HistorySize(0) - 3))
  }

  /** Every packet of the session finds the compressor able to go on at its level. */
  ghost predicate AllSwitchable(e: Encoder, sends: seq<Send>)
    requires |e.table| == TABLE_SIZE
    requires forall i {:trigger sends[i]} :: 0 <= i < |sends| ==> Sendable(sends[i]) && |sends[i].src| > 0
    decreases |sends|
  {
    sends != [] ==>
      assert Sendable(sends[0]);
      Switchable(e, sends[0].level) && AllSwitchable(CompressAt(e, sends[0]).1, sends[1..])
  }

  /** At such a moment the change keeps what the compressor keeps, on both sides. */
  lemma SwitchKeeps(e: Encoder, d: Decoder, level: nat)
    requires EncoderOK(e) && Mirrored(e, d) && level <= 1 && Switchable(e, level)
    ensures EncoderOK(e.(level := level)) && Mirrored(e.(level := level), d.(level := level))
  {
  }

  /** What comes out when every packet comes back. */
  ghost predicate AllBack(outs: seq<Output>, sends: seq<Send>) {
    |outs| == |sends| && forall i {:trigger outs[i]} :: 0 <= i < |sends| ==> outs[i] == Plain(sends[i].src)
  }

  /** The most a packet of a level may have: what fits the history and leaves room in the array. */
  function PacketLimit(level: nat): nat {
    if level != 0 then HISTORY_BYTES - 1 else HistorySize(0)
  }

  /** For every sequence of such packets, at one level or with changes the compressor can make, every packet
      comes out as it went in and the two history buffers are mirrored at the end. */
  lemma {:induction false} SessionRoundTrip(e: Encoder, d: Decoder, sends: seq<Send>)
    requires EncoderOK(e) && Mirrored(e, d) && d.pos <= HISTORY_BYTES
    requires forall i {:trigger sends[i]} :: 0 <= i < |sends| ==>
      Sendable(sends[i]) && 0 < |sends[i].src| <= PacketLimit(sends[i].level)
    requires AllSwitchable(e, sends)
    ensures var (outs, e', d') := Session(e, d, sends);
            AllBack(outs, sends) && EncoderOK(e') && Mirrored(e', d')
    decreases |sends|
  {
    hide Compress, Decompress, Mirrored, Switchable, StaysInside, MarkOK, ZeroBeyond;
    TableSize(e);
    if sends != [] {
      var s := sends[0];
      assert Sendable(s);
      StaysInsideIff(|s.src|);
      SwitchKeeps(e, d, s.level);
      var (p, e') := CompressAt(e, s);
      var (out, d') := Decompress(d.(level := p.flags.level), p);
      PacketRoundTrip(e.(level := s.level), d.(level := s.level), s.src, s.capacity);
      SessionRoundTrip(e', d', sends[1..]);
    }
  }

  lemma TableSize(e: Encoder)
    requires EncoderOK(e)
    ensures |e.table| == TABLE_SIZE && e.level <= 1
  {
  }

  /** In particular at one level. */
  lemma {:induction false} OneLevel(e: Encoder, sends: seq<Send>)
    requires |e.table| == TABLE_SIZE
    requires forall i {:trigger sends[i]} :: 0 <= i < |sends| ==>
      Sendable(sends[i]) && |sends[i].src| > 0 && sends[i].level == e.level
    ensures AllSwitchable(e, sends)
    decreases |sends|
  {
    hide Compress;
    if sends != [] {
      assert Sendable(sends[0]);
      OneLevel(CompressAt(e, sends[0]).1, sends[1..]);
    }
  }

  lemma FreshSession(level: nat, sends: seq<Send>)
    requires level <= 1
    requires forall i {:trigger sends[i]} :: 0 <= i < |sends| ==>
      Sendable(sends[i]) && 0 < |sends[i].src| <= PacketLimit(level) && sends[i].level == level
    ensures var (outs, e, d) := Session(NewEncoder(level), Decoder(level, ZeroHistory(), 0), sends);
            AllBack(outs, sends) && Mirrored(e, d)
  {
    hide Session, AllSwitchable;
    OneLevel(NewEncoder(level), sends);
    SessionRoundTrip(NewEncoder(level), Decoder(level, ZeroHistory(), 0), sends);
  }
}
