/** What mppc_compress chooses (libfreerdp/codec/mppc.c:511-586): when it takes a match, how far the match goes
    and what the match table then holds. */
module MppcChoice {
  import opened Basics
  import opened Bits
  import opened MppcCode
  import opened MppcHistory
  import opened MppcEncoder
  import opened MppcSession

  // ----- the match of a turn

  /** The index of the three symbols from i on. */
  function IndexAt(src: seq<byte>, i: nat): (index: nat)
    requires i + 3 <= |src|
    ensures index < TABLE_SIZE
  {
    MatchIndex(src[i], src[i + 1], src[i + 2])
  }

  /** The table of a turn: the entry becomes the position behind the first symbol, unless it is the position of
      that symbol already. */
  function Entered(src: seq<byte>, st: Scan): (table: seq<u16>)
    requires st.i + 3 <= |src| && st.hp < HISTORY_BYTES - 1 && |st.table| == TABLE_SIZE
    ensures |table| == TABLE_SIZE
  {
    var index := IndexAt(src, st.i);
    if st.table[index] == st.hp then st.table else st.table[index := st.hp + 1]
  }

  /** How far matches may read. */
  function Reach(st: Scan): nat {
    if st.mark <= st.hp then st.hp + 1 else st.mark
  }

  /** The table entry p of the next three symbols points behind the first of three bytes equal to them, in reach
      and not at one of the two positions just written; the first symbol has been written. */
  predicate MatchHere(src: seq<byte>, st: Scan)
    requires st.i + 3 <= |src| && st.hp < HISTORY_BYTES - 1 && |st.table| == TABLE_SIZE
  {
    var p := st.table[IndexAt(src, st.i)];
    var hist, table := st.hist[st.hp := src[st.i]], Entered(src, st);
    && 0 < p && p + 1 <= Reach(st) && p != st.hp && p != st.hp + 1
    && MemoryByte(hist, table, p - 1) == src[st.i]
    && MemoryByte(hist, table, p) == src[st.i + 1]
    && MemoryByte(hist, table, p + 1) == src[st.i + 2]
  }

  /** An extension stops at the last symbol, behind the reach or at the first byte that differs. */
  lemma {:induction false} ExtendMaximal(src: seq<byte>, table: seq<u16>, mark: nat, e: Extension)
    requires |table| == TABLE_SIZE && e.i < |src| && e.hp + (|src| - e.i) <= HISTORY_BYTES
    ensures var r := Extend(src, table, mark, e);
            && r.i < |src| && (r.match_ <= mark + 1 || r.match_ == e.match_)
            && (r.i == |src| - 1 || r.match_ > mark || src[r.i] != MemoryByte(r.hist, table, r.match_))
    decreases |src| - e.i
  {
    hide MemoryByte, Extend;
    if e.i < |src| - 1 && e.match_ <= mark && src[e.i] == MemoryByte(e.hist, table, e.match_) {
      ExtendMore(src, table, mark, e);
      ExtendMaximal(src, table, mark, Extension(e.hist[e.hp := src[e.i]], e.match_ + 1, e.hp + 1, e.i + 1));
    } else {
      ExtendStops(src, table, mark, e);
    }
  }

  /** A turn writes a copy tuple exactly when the table entry of its three symbols points to them. The tuple then
      stands for those bytes and as many more as agree: it ends at the last symbol of the packet, behind the
      reach or at the first byte that differs. Otherwise it writes a literal. */
  lemma TurnChoice(level: nat, src: seq<byte>, dstSize: nat, st: Scan)
    requires st.i < |src| - 3 && st.hp + (|src| - st.i) <= HISTORY_BYTES && |st.table| == TABLE_SIZE
    requires ScanStep(level, src, dstSize, st).Some?
    ensures var r := ScanStep(level, src, dstSize, st).value;
            && r.table == Entered(src, st) && r.mark == Reach(st)
            && if MatchHere(src, st) then
                 var p, length := st.table[IndexAt(src, st.i)], r.i - st.i;
                 && r.tokens == st.tokens + [Copy((st.hp + 1 - p) % HistorySize(level), length)]
                 && length >= 3 && r.i < |src|
                 && (p - 1 + length <= Reach(st) + 1 || length == 3)
                 && (r.i == |src| - 1 || p - 1 + length > Reach(st)
                     || src[r.i] != MemoryByte(r.hist, r.table, p - 1 + length))
               else
                 r.i == st.i + 1 && r.tokens == st.tokens + [Literal(src[st.i])]
  {
    hide MatchIndex, MemoryByte, Extend, CopyWidth;
    Opened(src, st);
    if MatchHere(src, st) {
      var p: nat := st.table[IndexAt(src, st.i)];
      var next := PutSymbol(src, st);
      var hist := next.hist[next.hp := src[next.i]][next.hp + 1 := src[next.i + 1]];
      ExtendMaximal(src, next.table, next.mark, Extension(hist, p + 2, next.hp + 2, next.i + 2));
    }
  }

  lemma Opened(src: seq<byte>, st: Scan)
    requires st.i < |src| - 3 && st.hp + (|src| - st.i) <= HISTORY_BYTES && |st.table| == TABLE_SIZE
    ensures var next := PutSymbol(src, st);
            && Candidate(src, st) == st.table[IndexAt(src, st.i)]
            && next == Scan(st.hist[st.hp := src[st.i]], Entered(src, st), Reach(st), st.hp + 1, st.i + 1, st.tokens,
                            st.bits)
            && Matches(next, Candidate(src, st), src[st.i], src[st.i + 1], src[st.i + 2]) == MatchHere(src, st)
  {
    hide MatchIndex, MemoryByte;
  }

  /** The source of a copy tuple is where the table entry points. */
  lemma CopiesFromEntry(level: nat, hp: nat, p: nat)
    requires 0 < p <= HistorySize(level) && hp < HistorySize(level)
    ensures CopySource(level, hp, (hp + 1 - p) % HistorySize(level)) == p - 1
  {
    var size := HistorySize(level);
    if p - 1 <= hp {
      DivModUnique(hp + 1 - p, size, 0, hp + 1 - p);
      DivModUnique(p - 1, size, 0, p - 1);
    } else {
      assert (hp + 1 - p) % size == hp + 1 - p + size;
      assert (p - 1 - size) % size == p - 1;
    }
  }

  /** A packet is given up exactly when the bytes kept in reserve, two for a literal and seven for a copy tuple,
      are not there. */
  lemma TurnRefused(level: nat, src: seq<byte>, dstSize: nat, st: Scan)
    requires st.i < |src| - 3 && st.hp + (|src| - st.i) <= HISTORY_BYTES && |st.table| == TABLE_SIZE
    ensures ScanStep(level, src, dstSize, st).None? <==>
            st.bits / 8 + (if MatchHere(src, st) then 7 else 2) > dstSize - 1
  {
    hide MatchIndex, MemoryByte, Extend, CopyWidth;
    Opened(src, st);
  }

  /** The last three symbols of a packet, at most, are literals, with two bytes kept in reserve for each. */
  lemma TailChoice(src: seq<byte>, dstSize: nat, st: Scan)
    requires st.i < |src| && st.hp + (|src| - st.i) <= HISTORY_BYTES
    ensures var next := Scan(st.hist[st.hp := src[st.i]], st.table, st.mark, st.hp + 1, st.i + 1,
                             st.tokens + [Literal(src[st.i])], st.bits + (if src[st.i] < 0x80 then 8 else 9));
            ScanTail(src, dstSize, st) ==
            if st.bits / 8 + 2 > dstSize - 1 then None else ScanTail(src, dstSize, next)
  {
  }

  /** So a packet is compressed exactly when no turn and no trailing symbol lacks its reserve in the smaller of the
      buffer and the source. */
  lemma CompressedIff(e: Encoder, src: seq<byte>, capacity: nat)
    requires |e.table| == TABLE_SIZE && 0 < |src| <= HISTORY_BYTES && capacity >= 1
    ensures var room := if capacity < |src| then capacity else |src|;
            Compress(e, src, capacity).0.flags.compressed <==> ScanAll(e, src, room).Some?
    ensures capacity >= |src| ==> Compress(e, src, capacity) == Compress(e, src, |src|)
  {
    hide ScanAll, Pack, AllBits;
  }

  // ----- the match table of a packet

  /** Where the last turn with this index starts. */
  function LastTurn(level: nat, src: seq<byte>, dstSize: nat, st: Scan, index: nat): (i: Option<nat>)
    requires st.i <= |src| && st.hp + (|src| - st.i) <= HISTORY_BYTES && |st.table| == TABLE_SIZE
    ensures i.Some? ==> st.i <= i.value < |src| - 3 && IndexAt(src, i.value) == index
    decreases |src| - st.i
  {
    if st.i < |src| - 3 && ScanStep(level, src, dstSize, st).Some? then
      var later := LastTurn(level, src, dstSize, ScanStep(level, src, dstSize, st).value, index);
      if later.Some? then later else if IndexAt(src, st.i) == index then Some(st.i) else None
    else None
  }

  /** The table holds, for each index, the position of the last turn with that index: the one behind its first
      symbol, or the one of that symbol if the entry was there already. */
  lemma {:induction false} TableIsLast(level: nat, src: seq<byte>, dstSize: nat, st: Scan, index: nat)
    requires st.i <= |src| && st.hp + (|src| - st.i) <= HISTORY_BYTES && |st.table| == TABLE_SIZE
    requires index < TABLE_SIZE && ScanMain(level, src, dstSize, st).Some?
    ensures var entry := ScanMain(level, src, dstSize, st).value.table[index];
            match LastTurn(level, src, dstSize, st, index)
            case None => entry == st.table[index]
            case Some(i) => entry == st.hp + (i - st.i) || entry == st.hp + (i - st.i) + 1
    decreases |src| - st.i
  {
    hide ScanStep, IndexAt;
    if st.i < |src| - 3 {
      TurnChoice(level, src, dstSize, st);
      TableIsLast(level, src, dstSize, ScanStep(level, src, dstSize, st).value, index);
    }
  }

  // ----- where the packet goes

  /** A packet continues the history if the history is in use and leaves more than three bytes behind the packet;
      otherwise it starts at the front, and the first one after a reset says so. A packet that is not
      compressed is the source, and leaves the compressor as a reset does. */
  lemma PacketPlace(e: Encoder, src: seq<byte>, capacity: nat)
    requires EncoderOK(e) && 0 < |src| <= HistorySize(e.level) && capacity >= 1
    ensures var (p, e') := Compress(e, src, capacity);
            var start := if p.flags.atFront then 0 else e.offset;
            && p.flags.level == e.level
            && (if p.flags.compressed then
                  && (p.flags.atFront <==> e.offset == 0 || e.offset + |src| + 3 >= HistorySize(e.level))
                  && (p.flags.flushed <==> e.offset == HistorySize(e.level) + 1)
                  && e'.offset == e'.mark == start + |src| && Written(src, e'.hist, start, |src|)
                else
                  && p.flags.flushed && !p.flags.atFront && p.data == src
                  && e'.offset == e'.mark == HistorySize(e.level) + 1
                  && e'.hist == NewEncoder(e.level).hist && e'.table == NewEncoder(e.level).table)
  {
    hide ScanAll, Pack, AllBits;
    var dstSize := if capacity > |src| then |src| else capacity;
    if ScanAll(e, src, dstSize).Some? { ScanAllKeeps(e, src, dstSize); }
  }
}
