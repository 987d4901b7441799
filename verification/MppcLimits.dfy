/** How long the packets of a session may be (libfreerdp/codec/mppc.c): mppc_compress takes an empty one,
    one that is longer than the history of its level and one that fills the array, and each of them can be
    lost. */
module MppcLimits {
  import opened Basics
  import opened Bits
  import opened MppcCode
  import opened MppcHistory
  import opened MppcEncoder
  import opened MppcSession

  // ----- sources of low symbols stay compressed

  /** All symbols take eight bits as literals. */
  ghost predicate Low(src: seq<byte>) {
    forall k {:trigger src[k]} :: 0 <= k < |src| ==> src[k] < 0x80
  }

  /** A copy tuple is never longer than the literals it replaces, and shorter when it is near. */
  lemma TupleSaves(level: nat, offset: nat, length: nat)
    requires length >= 3
    ensures CopyWidth(level, offset, length) <= if offset < 320 then 8 * length - 8 else 8 * length
  {
  }

  lemma LowStep(level: nat, src: seq<byte>, st: Scan)
    requires Low(src) && st.i < |src| - 3 && st.hp + (|src| - st.i) <= HISTORY_BYTES && |st.table| == TABLE_SIZE
    requires st.bits + 32 <= 8 * st.i
    ensures var r := ScanStep(level, src, |src|, st); r.Some? && r.value.bits + 32 <= 8 * r.value.i
  {
    hide MatchIndex, Extend, Matches, MemoryByte, CopyWidth;
    var m, next := Candidate(src, st), PutSymbol(src, st);
    if Matches(next, m, src[st.i], src[st.i + 1], src[st.i + 2]) {
      var r := CopyStep(level, src, |src|, m, next).value;
      TupleSaves(level, (next.hp - m) % HistorySize(level), 3 + (r.i - (next.i + 2)));
    }
  }

  /** Once four bytes have been saved the reserves are always there. */
  lemma {:induction false} LowMain(level: nat, src: seq<byte>, st: Scan)
    requires Low(src) && st.i <= |src| && st.hp + (|src| - st.i) <= HISTORY_BYTES && |st.table| == TABLE_SIZE
    requires st.bits + 32 <= 8 * st.i
    ensures var r := ScanMain(level, src, |src|, st); r.Some? && r.value.bits + 32 <= 8 * r.value.i
    decreases |src| - st.i
  {
    hide ScanStep;
    if st.i < |src| - 3 {
      LowStep(level, src, st);
      LowMain(level, src, ScanStep(level, src, |src|, st).value);
    }
  }

  lemma {:induction false} LowTail(src: seq<byte>, st: Scan)
    requires Low(src) && st.i <= |src| && st.hp + (|src| - st.i) <= HISTORY_BYTES && st.bits + 32 <= 8 * st.i
    ensures ScanTail(src, |src|, st).Some?
    decreases |src| - st.i
  {
    if st.i < |src| {
      var next := LiteralStep(|src|, src[st.i], st).value;
      LowTail(src, next.(hist := st.hist[st.hp := src[st.i]], hp := st.hp + 1, i := st.i + 1));
    }
  }

  // ----- zeros

  ghost predicate AllZero(h: History) {
    forall k :: 0 <= k < HISTORY_BYTES ==> h[k] == 0
  }

  /** The only entry of the match table that zeros use. */
  function Entry(st: Scan): nat
    requires |st.table| == TABLE_SIZE
  {
    st.table[0]
  }

  lemma ZeroIndex()
    ensures MatchIndex(0, 0, 0) == 0
  {
  }

  ghost predicate Quiet(n: nat, st: Scan) {
    && n <= HISTORY_BYTES && |st.table| == TABLE_SIZE && AllZero(st.hist)
    && st.mark <= st.hp == st.i <= n
  }

  lemma QuietPut(n: nat, st: Scan)
    requires Quiet(n, st) && st.i < n - 3
    ensures Candidate(Repeat(0, n), st) == Entry(st)
    ensures var next := PutSymbol(Repeat(0, n), st);
            && AllZero(next.hist) && next.mark == next.hp
            && Entry(next) == if Entry(st) != st.hp then st.hp + 1 else Entry(st)
  {
    hide MatchIndex;
    ZeroIndex();
  }

  lemma QuietLiteral(level: nat, n: nat, st: Scan)
    requires Quiet(n, st) && st.i < n - 3 && (Entry(st) == 0 || Entry(st) == st.hp) && st.bits / 8 + 2 <= n - 1
    ensures var r := ScanStep(level, Repeat(0, n), n, st);
            && r.Some? && Quiet(n, r.value) && r.value.i == st.i + 1 && r.value.bits == st.bits + 8
            && Entry(r.value) == if Entry(st) != st.hp then st.hp + 1 else Entry(st)
  {
    hide MatchIndex;
    QuietPut(n, st);
  }

  /** The extension goes up to the mark or up to the last symbol. */
  lemma {:induction false} ExtendZeros(n: nat, table: seq<u16>, mark: nat, e: Extension)
    requires |table| == TABLE_SIZE && mark < HISTORY_BYTES && AllZero(e.hist)
    requires e.hp + (n - e.i) <= HISTORY_BYTES && e.i < n && e.match_ <= mark + 1
    ensures var r := Extend(Repeat(0, n), table, mark, e);
            && AllZero(r.hist)
            && r.i == if e.i + (mark + 1 - e.match_) < n - 1 then e.i + (mark + 1 - e.match_) else n - 1
    decreases n - e.i
  {
    if e.i < n - 1 && e.match_ <= mark {
      ExtendZeros(n, table, mark, Extension(e.hist[e.hp := 0], e.match_ + 1, e.hp + 1, e.i + 1));
    }
  }

  lemma CopyZeros(level: nat, n: nat, m: nat, st: Scan)
    requires n <= HISTORY_BYTES && AllZero(st.hist) && st.mark == st.hp == st.i <= n - 3 && 0 < m < st.hp - 1
    requires |st.table| == TABLE_SIZE && st.bits / 8 + 7 <= n - 1
    ensures var r := CopyStep(level, Repeat(0, n), n, m, st);
            && r.Some? && AllZero(r.value.hist) && r.value.mark == st.mark
            && r.value.i == (if 2 * st.i + 1 - m < n - 1 then 2 * st.i + 1 - m else n - 1)
            && r.value.bits ==
               st.bits + CopyWidth(level, (st.hp - m) % HistorySize(level), r.value.i - st.i + 1)
  {
    hide CopyWidth, Extend;
    var hist: History := st.hist[st.hp := 0][st.hp + 1 := 0];
    assert st.hist[st.hp := Repeat(0, n)[st.i]][st.hp + 1 := Repeat(0, n)[st.i + 1]] == hist;
    ExtendZeros(n, st.table, st.mark, Extension(hist, m + 2, st.hp + 2, st.i + 2));
  }

  /** The scan of n zeros in front of copy tuple j: each tuple is two longer than the one before. */
  ghost predicate Rolling(n: nat, j: nat, st: Scan) {
    j > 0 && Quiet(n, st) && st.i == j * j + j + 1 && Entry(st) == j * j - j + 2
  }

  lemma Squares(j: nat)
    requires j > 0
    ensures j * j >= j && (j + 1) * (j + 1) == j * j + 2 * j + 1
  {
  }

  /** A turn of a rolling scan: it writes a copy tuple, and rolls on unless it has reached the end. */
  lemma RollingTurn(level: nat, n: nat, j: nat, st: Scan)
    requires Rolling(n, j, st) && st.i < n - 3 && st.bits / 8 + 7 <= n - 1
    ensures var r := ScanStep(level, Repeat(0, n), n, st);
            && r.Some? && Quiet(n, r.value) && st.i + 3 <= r.value.i && Entry(r.value) == st.i + 1
            && r.value.bits ==
               st.bits + CopyWidth(level, (st.hp + 1 - Entry(st)) % HistorySize(level), r.value.i - st.i)
            && (if (j + 1) * (j + 1) + j + 2 < n - 1 then Rolling(n, j + 1, r.value) else r.value.i == n - 1)
  {
    hide MatchIndex, CopyWidth, CopyStep, PutSymbol, Candidate;
    Squares(j);
    QuietPut(n, st);
    CopyZeros(level, n, Entry(st), PutSymbol(Repeat(0, n), st));
  }

  lemma TurnTaken(level: nat, src: seq<byte>, st: Scan, next: Scan)
    requires st.i < |src| - 3 && st.hp + (|src| - st.i) <= HISTORY_BYTES && |st.table| == TABLE_SIZE
    requires ScanStep(level, src, |src|, st) == Some(next)
    ensures ScanMain(level, src, |src|, st) == ScanMain(level, src, |src|, next)
  {
    hide ScanStep;
  }

  lemma StartsQuiet(level: nat, n: nat)
    requires n <= HISTORY_BYTES
    ensures var st := StartScan(NewEncoder(level), n); Quiet(n, st) && Entry(st) == 0 && st.i == st.bits == 0
  {
  }

  /** The first three turns write literals. */
  lemma ThreeLiterals(level: nat, n: nat) returns (st: Scan)
    requires 64 <= n <= HISTORY_BYTES
    ensures Rolling(n, 1, st) && st.i == 3 && st.bits == 24
    ensures ScanMain(level, Repeat(0, n), n, StartScan(NewEncoder(level), n)) == ScanMain(level, Repeat(0, n), n, st)
  {
    hide MatchIndex, ScanStep, ScanMain;
    var s0 := StartScan(NewEncoder(level), n);
    StartsQuiet(level, n);
    QuietLiteral(level, n, s0);
    var s1 := ScanStep(level, Repeat(0, n), n, s0).value;
    QuietLiteral(level, n, s1);
    var s2 := ScanStep(level, Repeat(0, n), n, s1).value;
    QuietLiteral(level, n, s2);
    st := ScanStep(level, Repeat(0, n), n, s2).value;
    TurnTaken(level, Repeat(0, n), s0, s1);
    TurnTaken(level, Repeat(0, n), s1, s2);
    TurnTaken(level, Repeat(0, n), s2, st);
  }

  /** One of the next four turns, each of which saves a byte. */
  lemma EarlyTuple(level: nat, n: nat, j: nat, st: Scan) returns (next: Scan)
    requires 64 <= n && 1 <= j <= 4 && Rolling(n, j, st) && st.bits + 8 * (j - 1) <= 8 * st.i
    ensures Rolling(n, j + 1, next) && next.bits + 8 * j <= 8 * next.i
    ensures ScanMain(level, Repeat(0, n), n, st) == ScanMain(level, Repeat(0, n), n, next)
  {
    hide ScanStep, ScanMain, CopyWidth, Quiet;
    RollingPlace(n, j, st);
    RollingTurn(level, n, j, st);
    next := ScanStep(level, Repeat(0, n), n, st).value;
    TupleSaves(level, (st.hp + 1 - Entry(st)) % HistorySize(level), next.i - st.i);
    TurnTaken(level, Repeat(0, n), st, next);
  }

  lemma RollingPlace(n: nat, j: nat, st: Scan)
    requires Rolling(n, j, st)
    ensures |st.table| == TABLE_SIZE && st.hp == st.i <= n <= HISTORY_BYTES
    ensures j <= 4 ==> st.i <= 21 && st.hp + 1 - Entry(st) == 2 * j
  {
    if j == 1 { } else if j == 2 { } else if j == 3 { } else if j == 4 { }
  }

  lemma FourTuples(level: nat, n: nat) returns (st: Scan)
    requires 64 <= n <= HISTORY_BYTES
    ensures Rolling(n, 5, st) && st.bits + 32 <= 8 * st.i
    ensures ScanMain(level, Repeat(0, n), n, StartScan(NewEncoder(level), n)) == ScanMain(level, Repeat(0, n), n, st)
  {
    hide ScanMain, Rolling;
    st := ThreeLiterals(level, n);
    st := EarlyTuple(level, n, 1, st);
    st := EarlyTuple(level, n, 2, st);
    st := EarlyTuple(level, n, 3, st);
    st := EarlyTuple(level, n, 4, st);
  }

  lemma ZerosCompressed(level: nat, n: nat)
    requires 64 <= n <= HISTORY_BYTES
    ensures Compress(NewEncoder(level), Repeat(0, n), n).0.flags.compressed
  {
    hide ScanMain, ScanTail;
    var st := FourTuples(level, n);
    RollingPlace(n, 5, st);
    LowMain(level, Repeat(0, n), st);
    LowTail(Repeat(0, n), ScanMain(level, Repeat(0, n), n, st).value);
  }

  // ----- longer than the history

  /** More than 8192 zeros, sent at level 0 by a new compressor to a new decompressor, are lost. */
  lemma LongZerosLost(n: nat)
    requires 8192 < n <= HISTORY_BYTES
    ensures var p := Compress(NewEncoder(0), Repeat(0, n), n).0;
            p.flags.compressed && Decompress(Decoder(0, ZeroHistory(), 0), p).0 != Plain(Repeat(0, n))
  {
    hide Compress, Decompress;
    ZerosCompressed(0, n);
    LongPacketLost(NewEncoder(0), Decoder(0, ZeroHistory(), 0), Repeat(0, n), n);
  }

  // ----- as long as the array

  /** The last copy tuple of 65536 zeros starts at symbol 65281. */
  lemma {:induction false} RollsToEnd(j: nat, st: Scan)
    requires 5 <= j <= 255 && Rolling(HISTORY_BYTES, j, st) && st.bits + 32 <= 8 * st.i
    ensures var r := ScanMain(1, Repeat(0, HISTORY_BYTES), HISTORY_BYTES, st);
            && r.Some? && Quiet(HISTORY_BYTES, r.value) && Entry(r.value) == 65282
            && r.value.i == HISTORY_BYTES - 1 && r.value.bits + 32 <= 8 * r.value.i
    decreases 255 - j
  {
    hide ScanStep, ScanMain, CopyWidth, Quiet;
    var n := HISTORY_BYTES;
    LatePlace(j, st);
    RollingPlace(n, j, st);
    RollingTurn(1, n, j, st);
    var next := ScanStep(1, Repeat(0, n), n, st).value;
    TupleSaves(1, (st.hp + 1 - Entry(st)) % HistorySize(1), next.i - st.i);
    TurnTaken(1, Repeat(0, n), st, next);
    if j < 255 {
      RollsToEnd(j + 1, next);
    } else {
      MainEnds(1, Repeat(0, n), next);
    }
  }

  lemma LatePlace(j: nat, st: Scan)
    requires 5 <= j <= 255 && Rolling(HISTORY_BYTES, j, st)
    ensures st.i <= 65281 && (j == 255 ==> st.i == 65281)
    ensures (j + 1) * (j + 1) + j + 2 < HISTORY_BYTES - 1 <==> j < 255
  {
    if j < 255 {
      Squares(j);
      MulMono(j + 1, 255, j + 1);
      MulMono(j + 1, 255, 255);
    }
  }

  lemma MainEnds(level: nat, src: seq<byte>, st: Scan)
    requires |src| - 3 <= st.i <= |src| && st.hp + (|src| - st.i) <= HISTORY_BYTES && |st.table| == TABLE_SIZE
    ensures ScanMain(level, src, |src|, st) == Some(st)
  {
  }

  lemma {:induction false} TailZeros(n: nat, st: Scan)
    requires Quiet(n, st) && ScanTail(Repeat(0, n), n, st).Some?
    ensures AllZero(ScanTail(Repeat(0, n), n, st).value.hist)
    decreases n - st.i
  {
    if st.i < n {
      var next := LiteralStep(n, 0, st).value;
      TailZeros(n, next.(hist := st.hist[st.hp := 0], hp := st.hp + 1, i := st.i + 1));
    }
  }

  /** What the compressor is left with after 65536 zeros at level 1: its position is the end of the array,
      and the entry of the three zeros points into the history it has just written. */
  function FullEncoder(table: seq<u16>): Encoder {
    Encoder(1, ZeroHistory(), table, HISTORY_BYTES, HISTORY_BYTES)
  }

  lemma ZerosFill()
    ensures var (p, e) := Compress(NewEncoder(1), Repeat(0, HISTORY_BYTES), HISTORY_BYTES);
            |e.table| == TABLE_SIZE && e.table[0] == 65282 && p.flags.compressed && e == FullEncoder(e.table)
  {
    hide ScanMain, ScanTail, Quiet;
    var n := HISTORY_BYTES;
    var st := FourTuples(1, n);
    RollingPlace(n, 5, st);
    RollsToEnd(5, st);
    var main := ScanMain(1, Repeat(0, n), n, st).value;
    LowTail(Repeat(0, n), main);
    TailZeros(n, main);
    assert ScanTail(Repeat(0, n), n, main).value.hist == ZeroHistory();
  }

  /** A packet for this compressor: 255 zeros, the low byte of the first entry of the match table as the first
      turn leaves it, and zeros again. */
  function NextPacket(): (s: seq<byte>)
    ensures |s| == HISTORY_BYTES
  {
    Repeat(0, 255) + [1] + Repeat(0, HISTORY_BYTES - 256)
  }

  lemma NextBytes()
    ensures Low(NextPacket()) && NextPacket()[255] == 1 && forall k :: 0 <= k < 255 ==> NextPacket()[k] == 0
  {
  }

  /** The match with the end of the history goes on over the first byte of the match table. */
  lemma {:induction false} ExtendOver(table: seq<u16>, e: Extension)
    requires |table| == TABLE_SIZE && table[0] == 1 && AllZero(e.hist)
    requires e.i <= 255 && e.hp == e.i && e.match_ == e.i + 65281
    ensures Extend(NextPacket(), table, HISTORY_BYTES, e).i == 256
    decreases 255 - e.i
  {
    hide NextPacket;
    NextBytes();
    if e.i < 255 {
      ExtendOver(table, Extension(e.hist[e.hp := 0], e.match_ + 1, e.hp + 1, e.i + 1));
    }
  }

  /** So the first turn writes a copy tuple for 256 symbols. */
  lemma FirstTuple(table: seq<u16>)
    requires |table| == TABLE_SIZE && table[0] == 65282
    ensures var r := ScanStep(1, NextPacket(), HISTORY_BYTES, StartScan(FullEncoder(table), HISTORY_BYTES));
            && r.Some? && r.value.tokens == [Copy(255, 256)] && r.value.i == 256
            && r.value.bits == CopyWidth(1, 255, 256)
  {
    hide MatchIndex, Extend, NextPacket, CopyWidth;
    ZeroIndex();
    NextBytes();
    var st := StartScan(FullEncoder(table), HISTORY_BYTES);
    var next := PutSymbol(NextPacket(), st);
    var hist: History := next.hist[1 := 0][2 := 0];
    ExtendOver(next.table, Extension(hist, 65284, 3, 3));
  }

  // ----- what the decompressor makes of the first tuple

  /** A scan only adds tokens. */
  lemma {:induction false} MainAdds(level: nat, src: seq<byte>, dstSize: nat, st: Scan)
    requires st.i <= |src| && st.hp + (|src| - st.i) <= HISTORY_BYTES && |st.table| == TABLE_SIZE
    ensures var r := ScanMain(level, src, dstSize, st); r.Some? ==> st.tokens <= r.value.tokens
    decreases |src| - st.i
  {
    hide ScanStep;
    if st.i < |src| - 3 && ScanStep(level, src, dstSize, st).Some? {
      StepAdds(level, src, dstSize, st);
      MainAdds(level, src, dstSize, ScanStep(level, src, dstSize, st).value);
    }
  }

  lemma StepAdds(level: nat, src: seq<byte>, dstSize: nat, st: Scan)
    requires st.i < |src| - 3 && st.hp + (|src| - st.i) <= HISTORY_BYTES && |st.table| == TABLE_SIZE
    ensures var r := ScanStep(level, src, dstSize, st); r.Some? ==> st.tokens <= r.value.tokens
  {
    hide MatchIndex, Extend, Matches, CopyWidth;
  }

  lemma {:induction false} TailAdds(src: seq<byte>, dstSize: nat, st: Scan)
    requires st.i <= |src| && st.hp + (|src| - st.i) <= HISTORY_BYTES
    ensures var r := ScanTail(src, dstSize, st); r.Some? ==> st.tokens <= r.value.tokens
    decreases |src| - st.i
  {
    if st.i < |src| && LiteralStep(dstSize, src[st.i], st).Some? {
      var next := LiteralStep(dstSize, src[st.i], st).value;
      TailAdds(src, dstSize, next.(hist := st.hist[st.hp := src[st.i]], hp := st.hp + 1, i := st.i + 1));
    }
  }

  /** Decoding goes forward: what is behind the position stays. */
  lemma {:induction false} DecodeKeeps(level: nat, h: History, pos: nat, b: seq<bool>, k: nat)
    requires k < pos && k < HISTORY_BYTES
    ensures var r := Decode(level, h, pos, b); r.Done? ==> pos <= r.pos && r.history[k] == h[k]
    decreases |b|
  {
    hide ReadToken, CopySource;
    if |b| >= 8 && pos <= HistorySize(level) - 1 {
      match ReadToken(level, b)
      case Read(Literal(symbol), rest) => DecodeKeeps(level, h[pos := symbol], pos + 1, rest, k);
      case Read(Copy(offset, length), rest) =>
        if pos + length - 1 <= HistorySize(level) - 1 {
          var s := CopySource(level, pos, offset);
          CopyKeeps(h, s, pos, length, k);
          DecodeKeeps(level, CopyBytes(h, s, pos, length), pos + length, rest, k);
        }
      case BadOffset =>
      case BadLength =>
    }
  }

  lemma {:induction false} CopyKeeps(h: History, s: nat, d: nat, n: nat, k: nat)
    requires d + n <= HISTORY_BYTES && k < d
    ensures CopyBytes(h, s, d, n)[k] == h[k]
    decreases n
  {
    if n > 0 { CopyKeeps(h, s, d, n - 1, k); }
  }

  /** The decompressor's match table is zero, so its copy ends with a zero. */
  lemma FirstCopy(h: History, pos: nat, b: seq<bool>, rest: seq<bool>)
    requires pos == 0 && b == TokenBits(1, Copy(255, 256)) + rest
    ensures var r := Decode(1, h, pos, b); r.Done? ==> r.pos >= 256 && r.history[255] == 0
  {
    hide ReadToken, TokenBits;
    TokenRoundTrip(1, Copy(255, 256), rest);
    DecodeStep(1, h, 0, b, Copy(255, 256), rest);
    var h1 := CopyBytes(h, 65281, 0, 256);
    assert CopySource(1, 0, 255) == 65281;
    assert h1[255] == 0;
    DecodeKeeps(1, h1, 256, rest, 255);
  }

  lemma ShortTuple()
    ensures CopyWidth(1, 255, 256) == 29
  {
  }

  /** Whatever the decompressor's history is, the packet after 65536 zeros comes out wrong. */
  lemma NextPacketLost(table: seq<u16>, d: Decoder)
    requires |table| == TABLE_SIZE && table[0] == 65282 && d.level == 1 && d.pos <= HISTORY_BYTES
    ensures var p := Compress(FullEncoder(table), NextPacket(), HISTORY_BYTES).0;
            p.flags.compressed && Decompress(d, p).0 != Plain(NextPacket())
  {
    hide ScanMain, ScanTail, ScanStep, Decode, Pack, Unpack, AllBits, TokenBits, NextPacket, CopyWidth;
    var e, src, n := FullEncoder(table), NextPacket(), HISTORY_BYTES;
    var st := StartScan(e, n);
    FirstTuple(table);
    NextBytes();
    var next := ScanStep(1, src, n, st).value;
    TurnTaken(1, src, st, next);
    ShortTuple();
    LowMain(1, src, next);
    var main := ScanMain(1, src, n, next).value;
    LowTail(src, main);
    MainAdds(1, src, n, next);
    TailAdds(src, n, main);
    var tokens := ScanTail(src, n, main).value.tokens;
    FirstOf(tokens, d.hist);
  }

  lemma FirstOf(tokens: seq<Token>, h: History)
    requires [Copy(255, 256)] <= tokens
    ensures var r := Decode(1, h, 0, Unpack(Pack(AllBits(1, tokens)))); r.Done? ==> r.pos >= 256 && r.history[255] == 0
  {
    hide Decode, Pack, Unpack, TokenBits;
    var bits := AllBits(1, tokens);
    var padding := Zeros(8 * ((|bits| + 7) / 8) - |bits|);
    UnpackPack(bits);
    FirstTokenBits(1, tokens, padding);
    FirstCopy(h, 0, bits + padding, AllBits(1, tokens[1..]) + padding);
  }

  // ----- exactly which sizes come back

  /** The packets of a session at one level, all of a size between the two bounds. */
  ghost predicate OfSize(sends: seq<Send>, level: nat, low: nat, high: nat) {
    forall i {:trigger sends[i]} :: 0 <= i < |sends| ==>
      Sendable(sends[i]) && sends[i].level == level && low <= |sends[i].src| <= high
  }

  /** Every such session between ends that agree brings every packet back. */
  ghost predicate AllComeBack(level: nat, low: nat, high: nat) {
    forall e: Encoder, d: Decoder, sends: seq<Send> |
      EncoderOK(e) && e.level == level && Mirrored(e, d) && d.pos <= HISTORY_BYTES && OfSize(sends, level, low, high) ::
      AllBack(Session(e, d, sends).0, sends)
  }

  lemma NewEnds(level: nat)
    requires level <= 1
    ensures EncoderOK(NewEncoder(level)) && Mirrored(NewEncoder(level), Decoder(level, ZeroHistory(), 0))
  {
  }

  lemma OneMissing(outs: seq<Output>, sends: seq<Send>, i: nat)
    requires i < |sends| && i < |outs| && outs[i] != Plain(sends[i].src)
    ensures !AllBack(outs, sends)
  {
  }

  lemma EmptyLost(level: nat) returns (sends: seq<Send>)
    requires level <= 1
    ensures OfSize(sends, level, 0, 0)
    ensures !AllBack(Session(NewEncoder(level), Decoder(level, ZeroHistory(), 0), sends).0, sends)
  {
    sends := [Send(level, [], 1)];
    StaysInsideIff(0);
    OneMissing(Session(NewEncoder(level), Decoder(level, ZeroHistory(), 0), sends).0, sends, 0);
  }

  lemma LongLost(n: nat) returns (sends: seq<Send>)
    requires 8192 < n <= HISTORY_BYTES
    ensures OfSize(sends, 0, n, n)
    ensures !AllBack(Session(NewEncoder(0), Decoder(0, ZeroHistory(), 0), sends).0, sends)
  {
    hide Compress, Decompress, StaysInside;
    sends := [Send(0, Repeat(0, n), n)];
    StaysInsideIff(n);
    LongZerosLost(n);
    OneSent(NewEncoder(0), Decoder(0, ZeroHistory(), 0), sends);
    OneMissing(Session(NewEncoder(0), Decoder(0, ZeroHistory(), 0), sends).0, sends, 0);
  }

  /** The outcome of the first packet of a session. */
  lemma OneSent(e: Encoder, d: Decoder, sends: seq<Send>)
    requires |e.table| == TABLE_SIZE && d.pos <= HISTORY_BYTES && sends != []
    requires forall i {:trigger sends[i]} :: 0 <= i < |sends| ==> Sendable(sends[i])
    requires |sends[0].src| > 0
    ensures var (p, e') := CompressAt(e, sends[0]);
            var (out, d') := Decompress(d.(level := p.flags.level), p);
            Session(e, d, sends).0 == [out] + Session(e', d', sends[1..]).0
  {
    hide Compress, Decompress, StaysInside;
    assert Sendable(sends[0]);
    StaysInsideIff(|sends[0].src|);
  }

  lemma FullLost() returns (sends: seq<Send>)
    ensures OfSize(sends, 1, HISTORY_BYTES, HISTORY_BYTES)
    ensures !AllBack(Session(NewEncoder(1), Decoder(1, ZeroHistory(), 0), sends).0, sends)
  {
    hide Compress, Decompress, NextPacket, StaysInside, Session;
    var n := HISTORY_BYTES;
    var first, second := Send(1, Repeat(0, n), n), Send(1, NextPacket(), n);
    sends := [first, second];
    var e, d := NewEncoder(1), Decoder(1, ZeroHistory(), 0);
    OneSent(e, d, sends);
    ZerosFill();
    var (p, e1) := CompressAt(e, first);
    var d1 := Decompress(d.(level := p.flags.level), p).1;
    assert sends[1..] == [second];
    OneSent(e1, d1, [second]);
    NextPacketLost(e1.table, d1);
    OneMissing(Session(e, d, sends).0, sends, 1);
  }

  /** Sessions of packets of low up to high bytes come back, whatever the packets and the buffers are, exactly
      when no packet is empty and none is longer than the history of the level or as long as the array. */
  lemma SizesIff(level: nat, low: nat, high: nat)
    requires level <= 1 && low <= high <= HISTORY_BYTES
    ensures AllComeBack(level, low, high) <==> 0 < low && high <= PacketLimit(level)
  {
    hide Session, ZeroBeyond, Mirrored, AllSwitchable;
    NewEnds(level);
    if low == 0 {
      var sends := EmptyLost(level);
      assert OfSize(sends, level, low, high);
    } else if high > PacketLimit(level) {
      var sends;
      if level == 0 { sends := LongLost(high); } else { sends := FullLost(); }
      assert OfSize(sends, level, low, high);
    } else {
      forall e: Encoder, d: Decoder, sends: seq<Send> |
        EncoderOK(e) && e.level == level && Mirrored(e, d) && d.pos <= HISTORY_BYTES && OfSize(sends, level, low, high)
        ensures AllBack(Session(e, d, sends).0, sends)
      {
        TableSize(e);
        OneLevel(e, sends);
        SessionRoundTrip(e, d, sends);
      }
    }
  }
}
