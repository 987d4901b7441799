/** mppc_compress as a function on values: the greedy scan, the match table and the fallback to a
    flushed raw packet. */
module MppcEncoder {
  import opened Basics
  import opened Bits
  import opened MppcCode
  import opened MppcHistory

  const TABLE_SIZE := 32768

  /** Entry i of MPPC_MATCH_TABLE: the 256 constants are the multiples of this one. */
  function MatchTable(i: byte): nat {
    i * 0x9CCF93
  }

  /** MPPC_MATCH_INDEX. */
  function MatchIndex(sym1: byte, sym2: byte, sym3: byte): (index: nat)
    ensures index < TABLE_SIZE
  {
    ((MatchTable(sym3) * 0x1_0000 + MatchTable(sym2) * 0x100 + MatchTable(sym1)) / 0x1000) % 0x8000
  }

  /** The compressor's context: `mark` is the position of the HistoryPtr field, up to which matches
      may read, and `offset` the HistoryOffset field. */
  datatype Encoder = Encoder(level: nat, hist: History, table: seq<u16>, mark: nat, offset: nat)

  /** The state of the scan: the next source byte i goes to history position hp. */
  datatype Scan = Scan(hist: History, table: seq<u16>, mark: nat, hp: nat, i: nat, tokens: seq<Token>, bits: nat)

  /** Where the extension of a match stops. */
  datatype Extension = Extension(hist: History, match_: nat, hp: nat, i: nat)

  /** Byte m from the start of the HistoryBuffer array on; the MatchBuffer array follows it in the context,
      and what is behind that is out of reach. */
  function MemoryByte(hist: History, table: seq<u16>, m: nat): byte
    requires |table| == TABLE_SIZE
  {
    if m < HISTORY_BYTES then hist[m]
    else
      var k := (m - HISTORY_BYTES) / 2;
      if k >= TABLE_SIZE then 0
      else if (m - HISTORY_BYTES) % 2 == 0 then table[k] % 256 else table[k] / 256
  }

  /** The extension loop of a match, which writes the history as it compares against it. */
  function Extend(src: seq<byte>, table: seq<u16>, mark: nat, e: Extension): (r: Extension)
    requires e.hp + (|src| - e.i) <= HISTORY_BYTES && e.i <= |src| && |table| == TABLE_SIZE
    ensures e.i <= r.i <= |src| && r.hp - e.hp == r.match_ - e.match_ == r.i - e.i
    ensures e.i < |src| ==> r.i < |src|
    decreases |src| - e.i
  {
    if e.i < |src| - 1 && e.match_ <= mark && src[e.i] == MemoryByte(e.hist, table, e.match_)
    then Extend(src, table, mark, Extension(e.hist[e.hp := src[e.i]], e.match_ + 1, e.hp + 1, e.i + 1))
    else e
  }

  lemma ExtendMore(src: seq<byte>, table: seq<u16>, mark: nat, e: Extension)
    requires |table| == TABLE_SIZE && e.hp + (|src| - e.i) <= HISTORY_BYTES && e.i < |src| - 1
    requires e.match_ <= mark && src[e.i] == MemoryByte(e.hist, table, e.match_)
    ensures Extend(src, table, mark, e) ==
            Extend(src, table, mark, Extension(e.hist[e.hp := src[e.i]], e.match_ + 1, e.hp + 1, e.i + 1))
  {
  }

  lemma ExtendStops(src: seq<byte>, table: seq<u16>, mark: nat, e: Extension)
    requires |table| == TABLE_SIZE && e.hp + (|src| - e.i) <= HISTORY_BYTES && e.i <= |src|
    requires e.i >= |src| - 1 || e.match_ > mark || src[e.i] != MemoryByte(e.hist, table, e.match_)
    ensures Extend(src, table, mark, e) == e
  {
  }

  function LiteralWidth(symbol: byte): nat {
    if symbol < 0x80 then 8 else 9
  }

  function CopyWidth(level: nat, offset: nat, length: nat): nat {
    OffsetCode(level, offset).width + LengthCode(level, length).width
  }

  /** Whether position m may be used for a match of the three symbols written at and expected
      after hp - 1. */
  predicate Matches(st: Scan, m: nat, sym1: byte, sym2: byte, sym3: byte)
    requires |st.table| == TABLE_SIZE
  {
    && m != 0
    && sym1 == MemoryByte(st.hist, st.table, m - 1)
    && sym2 == MemoryByte(st.hist, st.table, m)
    && sym3 == MemoryByte(st.hist, st.table, m + 1)
    && m + 1 <= st.mark && m != st.hp - 1 && m != st.hp
  }

  /** The match branch of the main loop, after the first symbol has been written. */
  function CopyStep(level: nat, src: seq<byte>, dstSize: nat, m: nat, st: Scan): (r: Option<Scan>)
    requires st.i + 2 <= |src| && st.hp + (|src| - st.i) <= HISTORY_BYTES && |st.table| == TABLE_SIZE
    ensures r.Some? ==> st.i < r.value.i <= |src| && r.value.hp - st.hp == r.value.i - st.i && r.value.table == st.table
  {
    var offset := (st.hp - m) % HistorySize(level);
    var hist := st.hist[st.hp := src[st.i]][st.hp + 1 := src[st.i + 1]];
    var e := Extend(src, st.table, st.mark, Extension(hist, m + 2, st.hp + 2, st.i + 2));
    var length := 3 + (e.i - (st.i + 2));
    var tokens, bits := st.tokens + [Copy(offset, length)], st.bits + CopyWidth(level, offset, length);
    if st.bits / 8 + 7 > dstSize - 1 then None
    else Some(Scan(e.hist, st.table, st.mark, e.hp, e.i, tokens, bits))
  }

  /** The literal branch of the main loop and of the loop over the trailing symbols, after the
      symbol has been written. */
  function LiteralStep(dstSize: nat, symbol: byte, st: Scan): Option<Scan> {
    if st.bits / 8 + 2 > dstSize - 1 then None
    else Some(st.(tokens := st.tokens + [Literal(symbol)], bits := st.bits + LiteralWidth(symbol)))
  }

  /** The match position the table suggests. */
  function Candidate(src: seq<byte>, st: Scan): nat
    requires st.i < |src| - 3 && |st.table| == TABLE_SIZE
  {
    st.table[MatchIndex(src[st.i], src[st.i + 1], src[st.i + 2])]
  }

  /** The first symbol goes to the history, the table and the mark are brought up to date. */
  function PutSymbol(src: seq<byte>, st: Scan): (r: Scan)
    requires st.i < |src| - 3 && st.hp < HISTORY_BYTES && |st.table| == TABLE_SIZE
    ensures |r.table| == TABLE_SIZE && r.i == st.i + 1 && r.hp == st.hp + 1
    ensures r.bits == st.bits && r.tokens == st.tokens
  {
    var hp := st.hp + 1;
    var index := MatchIndex(src[st.i], src[st.i + 1], src[st.i + 2]);
    Scan(st.hist[st.hp := src[st.i]],
         if Candidate(src, st) != hp - 1 then st.table[index := (hp % 0x1_0000) as u16] else st.table,
         if st.mark < hp then hp else st.mark, hp, st.i + 1, st.tokens, st.bits)
  }

  /** pSrcEnd - pSrcData, which `SrcSize - 1` gives in 32 bits. */
  function LastByte(size: nat): nat {
    (size + 0xFFFF_FFFF) % 0x1_0000_0000
  }

  /** The main loop takes another turn at source byte i: `pSrcPtr < (pSrcEnd - 2)`. */
  predicate TakesTurn(size: nat, i: nat) {
    i < LastByte(size) - 2
  }

  /** Every turn finds the three symbols it reads in the source. */
  ghost predicate StaysInside(size: nat) {
    forall i: nat {:trigger TakesTurn(size, i)} :: TakesTurn(size, i) ==> i + 3 <= size
  }

  /** For a source that is not empty the test is the one that ScanMain makes. For the empty source the
      32-bit subtraction wraps, and the first turn already reads behind it. */
  lemma StaysInsideIff(size: nat)
    requires size < 0x1_0000_0000
    ensures StaysInside(size) <==> size > 0
    ensures forall i: nat {:trigger TakesTurn(size, i)} :: size > 0 ==> (TakesTurn(size, i) <==> i < size - 3)
  {
    if size == 0 {
      assert TakesTurn(0, 0);
    } else {
      DivModUnique(size + 0xFFFF_FFFF, 0x1_0000_0000, 1, size - 1);
    }
  }

  /** One turn of the main loop; None is the fallback to a flushed packet. */
  function ScanStep(level: nat, src: seq<byte>, dstSize: nat, st: Scan): (r: Option<Scan>)
    requires st.i < |src| - 3 && st.hp + (|src| - st.i) <= HISTORY_BYTES && |st.table| == TABLE_SIZE
    ensures r.Some? ==> st.i < r.value.i <= |src| && r.value.hp - st.hp == r.value.i - st.i
    ensures r.Some? ==> |r.value.table| == TABLE_SIZE
  {
    var m, next := Candidate(src, st), PutSymbol(src, st);
    if Matches(next, m, src[st.i], src[st.i + 1], src[st.i + 2])
    then CopyStep(level, src, dstSize, m, next)
    else LiteralStep(dstSize, src[st.i], next)
  }

  function ScanMain(level: nat, src: seq<byte>, dstSize: nat, st: Scan): (r: Option<Scan>)
    requires st.i <= |src| && st.hp + (|src| - st.i) <= HISTORY_BYTES && |st.table| == TABLE_SIZE
    ensures r.Some? ==> st.i <= r.value.i <= |src| && r.value.hp - st.hp == r.value.i - st.i
    ensures r.Some? ==> |r.value.table| == TABLE_SIZE
    decreases |src| - st.i
  {
    if st.i < |src| - 3 then
      match ScanStep(level, src, dstSize, st)
      case None => None
      case Some(next) => ScanMain(level, src, dstSize, next)
    else Some(st)
  }

  /** The trailing symbols, as literals. */
  function ScanTail(src: seq<byte>, dstSize: nat, st: Scan): (r: Option<Scan>)
    requires st.i <= |src| && st.hp + (|src| - st.i) <= HISTORY_BYTES
    ensures r.Some? ==> r.value.i == |src| && r.value.hp - st.hp == |src| - st.i && r.value.table == st.table
    decreases |src| - st.i
  {
    if st.i == |src| then Some(st)
    else
      match LiteralStep(dstSize, src[st.i], st)
      case None => None
      case Some(next) =>
        ScanTail(src, dstSize, next.(hist := st.hist[st.hp := src[st.i]], hp := st.hp + 1, i := st.i + 1))
  }

  /** What travels with a packet: the PACKET_COMPRESSED, PACKET_AT_FRONT and PACKET_FLUSHED bits
      and the compression type. */
  datatype Flags = Flags(compressed: bool, atFront: bool, flushed: bool, level: nat)

  datatype Packet = Packet(flags: Flags, data: seq<byte>)

  function ZeroHistory(): (h: History)
    ensures forall k :: 0 <= k < HISTORY_BYTES ==> h[k] == 0
  {
    seq(HISTORY_BYTES, _ => 0)
  }

  function ZeroTable(): (t: seq<u16>)
    ensures |t| == TABLE_SIZE && forall k :: 0 <= k < TABLE_SIZE ==> t[k] == 0
  {
    seq(TABLE_SIZE, _ => 0)
  }

  /** mppc_context_reset. */
  function Reset(e: Encoder, flush: bool): Encoder {
    var offset := if flush then HistorySize(e.level) + 1 else 0;
    Encoder(e.level, ZeroHistory(), ZeroTable(), offset, offset)
  }

  /** Whether the packet continues the history instead of starting at its front. */
  predicate Continues(e: Encoder, n: nat) {
    e.offset + n < HistorySize(e.level) - 3 && e.offset != 0
  }

  function StartScan(e: Encoder, n: nat): Scan {
    Scan(e.hist, e.table, e.mark, if Continues(e, n) then e.offset else 0, 0, [], 0)
  }

  function ScanAll(e: Encoder, src: seq<byte>, dstSize: nat): (r: Option<Scan>)
    requires |e.table| == TABLE_SIZE && |src| <= HISTORY_BYTES
    ensures r.Some? ==> r.value.i == |src| && r.value.hp == StartScan(e, |src|).hp + |src|
    ensures r.Some? ==> |r.value.table| == TABLE_SIZE
  {
    match ScanMain(e.level, src, dstSize, StartScan(e, |src|))
    case None => None
    case Some(st) => ScanTail(src, dstSize, st)
  }

  /** mppc_compress into a buffer of `capacity` bytes. */
  function Compress(e: Encoder, src: seq<byte>, capacity: nat): (r: (Packet, Encoder))
    requires |e.table| == TABLE_SIZE && 0 < |src| <= HISTORY_BYTES && capacity >= 1
    ensures |r.1.table| == TABLE_SIZE && r.1.level == e.level
  {
    var dstSize := if capacity > |src| then |src| else capacity;
    match ScanAll(e, src, dstSize)
    case None => (Packet(Flags(false, false, true, e.level), src), Reset(e, true))
    case Some(st) =>
      var atFront := !Continues(e, |src|);
      var flushed := atFront && e.offset == HistorySize(e.level) + 1;
      (Packet(Flags(true, atFront, flushed, e.level), Pack(AllBits(e.level, st.tokens))),
       Encoder(e.level, st.hist, st.table, st.hp, st.hp))
  }

  /** mppc_context_new, mppc_context_reset without flush. */
  function NewEncoder(level: nat): Encoder {
    Encoder(level, ZeroHistory(), ZeroTable(), 0, 0)
  }
}
