/** A packet of mppc_compress worked out (libfreerdp/codec/mppc.c:449-763): "abc" eight times, at level 1 and on a
    new context. */
module MppcExample {
  import opened Basics
  import opened Bits
  import opened BitPieces
  import opened MppcCode
  import opened MppcFormat
  import opened MppcHistory
  import opened MppcEncoder
  import opened MppcSession
  import opened MppcChoice
  import opened MppcRepeats

  function Abc(n: nat): (src: seq<byte>)
    ensures |src| == n && forall k :: 0 <= k < n ==> src[k] == 97 + k % 3
  {
    seq(n, k requires 0 <= k < n => (97 + k % 3) as byte)
  }

  lemma AbcIndex()
    ensures MatchIndex(97, 98, 99) == 2974
  {
    DivModUnique(66935064226995, 0x1000, 16341568414, 3251);
    DivModUnique(16341568414, 0x8000, 498705, 2974);
  }

  lemma BcaIndex()
    ensures MatchIndex(98, 99, 97) == 28676
  {
    DivModUnique(65590710521670, 0x1000, 16013357060, 3910);
    DivModUnique(16013357060, 0x8000, 488688, 28676);
  }

  lemma CabIndex()
    ensures MatchIndex(99, 97, 98) == 22799
  {
    DivModUnique(66258956515545, 0x1000, 16176503055, 2265);
    DivModUnique(16176503055, 0x8000, 493667, 22799);
  }

  lemma AbcRepeats(n: nat)
    requires n >= 5
    ensures Periodic(Abc(n), 3) && Distinct(Abc(n), 3)
  {
    hide MatchIndex;
    AbcIndex();
    BcaIndex();
    CabIndex();
    var src := Abc(n);
    assert src[0] == 97 && src[1] == 98 && src[2] == 99 && src[3] == 97 && src[4] == 98;
    forall f, g {:trigger IndexAt(src, f), IndexAt(src, g)} | 0 <= f < g < 3
      ensures IndexAt(src, f) != IndexAt(src, g)
    {
      if f == 0 && g == 1 { } else if f == 0 { } else { }
    }
  }

  lemma AbcCompressed(level: nat, n: nat)
    requires level <= 1 && 256 <= n <= HISTORY_BYTES
    ensures Compress(NewEncoder(level), Abc(n), n).0.flags.compressed
  {
    hide Compress, Periodic, Distinct;
    AbcRepeats(n);
    var copies := RepeatsCompressed(level, Abc(n), 3, n);
  }

  // ----- eight times

  /** Three letters and the first of them again are literals. */
  lemma FourLetters() returns (st: Scan)
    ensures var src := Abc(24);
            && Repeating(src, 3, st, 3) && st.i == 4 && st.bits == 32
            && st.tokens == [Literal(97), Literal(98), Literal(99), Literal(97)]
            && st.table[IndexAt(src, 0)] == 4 && st.table[IndexAt(src, 1)] == 2 && st.table[IndexAt(src, 2)] == 3
            && ScanMain(1, src, 24, StartScan(NewEncoder(1), 24)) == ScanMain(1, src, 24, st)
  {
    hide ScanStep, ScanMain, IndexAt, Periodic, Distinct, Written;
    var src := Abc(24);
    AbcRepeats(24);
    StartsOpening(1, src, 3);
    var s0 := StartScan(NewEncoder(1), 24);
    OpeningTurn(1, src, 3, s0);
    var s1 := ScanStep(1, src, 24, s0).value;
    OpeningTurn(1, src, 3, s1);
    var s2 := ScanStep(1, src, 24, s1).value;
    OpeningTurn(1, src, 3, s2);
    var s3 := ScanStep(1, src, 24, s2).value;
    assert OpeningEntry(src, 3, s3.table, 3, 0) && OpeningEntry(src, 3, s3.table, 3, 1)
           && OpeningEntry(src, 3, s3.table, 3, 2);
    OpeningTurn(1, src, 3, s3);
    st := ScanStep(1, src, 24, s3).value;
    EnteredHere(src, 3, s3);
    MainTurn(1, src, s0);
    MainTurn(1, src, s1);
    MainTurn(1, src, s2);
    MainTurn(1, src, s3);
  }

  /** A turn that finds entry p for the place f of the period. */
  lemma AbcTurn(st: Scan, q: nat, f: nat, p: nat, length: nat) returns (next: Scan)
    requires Repeating(Abc(24), 3, st, q) && st.i < 21 && f == st.i % 3 && st.table[IndexAt(Abc(24), f)] == p
    requires st.bits / 8 + 7 <= 23 && length == if 2 * st.i + 3 - p < 23 then st.i + 3 - p else 23 - st.i
    ensures p <= st.i + 1 && Repeating(Abc(24), 3, next, st.i) && next.i == st.i + length
    ensures next.tokens == st.tokens + [Copy((st.i + 1 - p) % 65536, length)]
    ensures next.bits == st.bits + CopyWidth(1, (st.i + 1 - p) % 65536, length)
    ensures forall g :: 0 <= g < 3 && g != f ==> next.table[IndexAt(Abc(24), g)] == st.table[IndexAt(Abc(24), g)]
    ensures ScanMain(1, Abc(24), 24, st) == ScanMain(1, Abc(24), 24, next)
  {
    hide ScanStep, ScanMain, IndexAt, Periodic, Written, MatchHere, CopyWidth;
    var src := Abc(24);
    PhaseOf(st.i, 3);
    SameIndex(src, 3, f, st.i);
    MatchFound(src, 3, st, q);
    TurnRefused(1, src, 24, st);
    TurnRepeats(1, src, 3, 24, st, q);
    StaysRepeating(1, src, 3, 24, st, q);
    TurnBits(1, src, 24, st);
    EnteredHere(src, 3, st);
    MainTurn(1, src, st);
    next := ScanStep(1, src, 24, st).value;
  }

  function AbcTokens(): seq<Token> {
    [Literal(97), Literal(98), Literal(99), Literal(97), Copy(3, 5), Copy(6, 8), Copy(15, 6), Literal(99)]
  }

  /** Three copy tuples, the last one cut off before the last letter, which is a literal again. */
  lemma AbcScan()
    ensures var r := ScanAll(NewEncoder(1), Abc(24), 24); r.Some? && r.value.tokens == AbcTokens()
  {
    hide ScanMain, IndexAt, Repeating, CopyWidth;
    var src := Abc(24);
    var st := FourLetters();
    var t1 := AbcTurn(st, 3, 1, 2, 5);
    CopyWidthBound(1, 3, 5);
    var t2 := AbcTurn(t1, 4, 0, 4, 8);
    AbcWidths();
    var t3 := AbcTurn(t2, 9, 2, 3, 6);
    AbcRoom(t3);
    MainStops(1, src, t3);
    LastLetter(t3);
  }

  lemma LastLetter(st: Scan)
    requires st.i == st.hp == 23 && st.bits == 79
    ensures var r := ScanTail(Abc(24), 24, st); r.Some? && r.value.tokens == st.tokens + [Literal(99)]
  {
    var next := LiteralStep(24, Abc(24)[23], st).value;
    var last := next.(hist := st.hist[23 := 99], hp := 24, i := 24);
    assert ScanTail(Abc(24), 24, last) == Some(last);
  }

  lemma AbcWidths()
    ensures CopyWidth(1, 3, 5) == 15 && CopyWidth(1, 6, 8) == 17 && CopyWidth(1, 15, 6) == 15
  {
  }

  lemma AbcRoom(st: Scan)
    requires Repeating(Abc(24), 3, st, 17)
    ensures |st.table| == TABLE_SIZE && st.hp == st.i
  {
  }

  // ----- the bytes

  lemma {:induction false} UnpackInjective(a: seq<byte>, b: seq<byte>)
    requires |a| == |b| && Unpack(a) == Unpack(b)
    ensures a == b
    decreases |a|
  {
    hide ToBits;
    if a != [] {
      assert ToBits(a[0], 8) == Unpack(a)[..8] && ToBits(b[0], 8) == Unpack(b)[..8];
      assert Unpack(a[1..]) == Unpack(a)[8..] && Unpack(b[1..]) == Unpack(b)[8..];
      FromTo(a[0], 8);
      FromTo(b[0], 8);
      assert Pow2(8) == 256;
      UnpackInjective(a[1..], b[1..]);
      assert a == [a[0]] + a[1..] && b == [b[0]] + b[1..];
    }
  }

  /** A token in front of bits that are known as a number. */
  lemma TokenStep(t: Token, c: nat, m: nat, ts: seq<Token>, v: nat, n: nat, p: nat)
    requires TokenBits(1, t) == ToBits(c, m) && AllBits(1, ts) == ToBits(v, n) && v < p == Pow2(n)
    ensures AllBits(1, [t] + ts) == ToBits(c * p + v, m + n)
  {
    hide TokenBits, ToBits, Pow2;
    assert ([t] + ts)[1..] == ts;
    Prefixed(c, m, v, n);
  }

  lemma ByteStep(x: byte, bytes: seq<byte>, v: nat, n: nat, p: nat)
    requires Unpack(bytes) == ToBits(v, n) && v < p == Pow2(n)
    ensures Unpack([x] + bytes) == ToBits(x * p + v, 8 + n)
  {
    hide ToBits, Pow2;
    assert ([x] + bytes)[1..] == bytes;
    Prefixed(x, 8, v, n);
  }

  function AbcTuples(): seq<Token> {
    [Copy(3, 5), Copy(6, 8), Copy(15, 6), Literal(99)]
  }

  lemma TupleBits()
    ensures TokenBits(1, Copy(3, 5)) == ToBits(0x7C39, 15)
    ensures TokenBits(1, Copy(6, 8)) == ToBits(0x1F1B0, 17)
    ensures TokenBits(1, Copy(15, 6)) == ToBits(0x7CFA, 15)
    ensures TokenBits(1, Literal(99)) == ToBits(0x63, 8)
  {
    assert Pow2(4) == 16 && Pow2(6) == 64;
    hide ToBits, Pow2;
    Prefixed(0x7C3, 11, 0x9, 4);
    Prefixed(0x7C6, 11, 0x30, 6);
    Prefixed(0x7CF, 11, 0xA, 4);
  }

  lemma BytePowers()
    ensures Pow2(0) == 1 && Pow2(8) == 0x100 && Pow2(16) == 0x1_0000 && Pow2(23) == 0x80_0000 && Pow2(24) == 0x100_0000
    ensures Pow2(32) == 0x1_0000_0000 && Pow2(40) == 0x100_0000_0000 && Pow2(48) == 0x1_0000_0000_0000
  {
    Powers();
    Pow32();
    Pow2Add(32, 8);
    Pow2Add(32, 16);
  }

  /** The 55 bits of the tuples and the last letter, as a number. */
  lemma TuplesNumber()
    ensures AllBits(1, AbcTuples()) == ToBits(0x7C39F8D87CFA63, 55)
  {
    hide ToBits, Pow2, TokenBits, AllBits;
    BytePowers();
    TupleBits();
    NoBits();
    TokenStep(Literal(99), 0x63, 8, [], 0, 0, 1);
    var d := [Literal(99)] + [];
    TokenStep(Copy(15, 6), 0x7CFA, 15, d, 0x63, 8, 0x100);
    var c := [Copy(15, 6)] + d;
    TokenStep(Copy(6, 8), 0x1F1B0, 17, c, 0x7CFA63, 23, 0x80_0000);
    var b := [Copy(6, 8)] + c;
    TokenStep(Copy(3, 5), 0x7C39, 15, b, 0xF8D87CFA63, 40, 0x100_0000_0000);
    assert [Copy(3, 5)] + b == AbcTuples();
  }

  lemma NoBits()
    ensures AllBits(1, []) == Unpack([]) == ToBits(0, 0) == []
  {
  }

  function AbcTail(): seq<byte> {
    [0xF8, 0x73, 0xF1, 0xB0, 0xF9, 0xF4, 0xC6]
  }

  lemma TailNumber()
    ensures Unpack(AbcTail()) == ToBits(0xF873F1B0F9F4C6, 56)
  {
    hide ToBits, Pow2, Unpack;
    BytePowers();
    NoBits();
    ByteStep(0xC6, [], 0, 0, 1);
    var b0 := [0xC6] + [];
    ByteStep(0xF4, b0, 0xC6, 8, 0x100);
    var b1 := [0xF4] + b0;
    ByteStep(0xF9, b1, 0xF4C6, 16, 0x1_0000);
    var b2 := [0xF9] + b1;
    ByteStep(0xB0, b2, 0xF9F4C6, 24, 0x100_0000);
    var b3 := [0xB0] + b2;
    ByteStep(0xF1, b3, 0xB0F9F4C6, 32, 0x1_0000_0000);
    var b4 := [0xF1] + b3;
    ByteStep(0x73, b4, 0xF1B0F9F4C6, 40, 0x100_0000_0000);
    var b5 := [0x73] + b4;
    ByteStep(0xF8, b5, 0x73F1B0F9F4C6, 48, 0x1_0000_0000_0000);
    assert [0xF8] + b5 == AbcTail();
  }

  lemma TuplesPacked()
    ensures AllBits(1, AbcTuples()) + [false] == Unpack(AbcTail())
  {
    hide ToBits, AllBits, Unpack, AbcTuples, AbcTail;
    TuplesNumber();
    TailNumber();
    ToBitsLast(0xF873F1B0F9F4C6, 56);
  }

  /** A letter takes a byte. */
  lemma LetterStep(x: byte, ts: seq<Token>, bytes: seq<byte>)
    requires x < 0x80 && AllBits(1, ts) + [false] == Unpack(bytes)
    ensures AllBits(1, [Literal(x)] + ts) + [false] == Unpack([x] + bytes)
  {
    hide ToBits;
    assert ([Literal(x)] + ts)[1..] == ts && ([x] + bytes)[1..] == bytes;
    assert ToBits(x, 8) + AllBits(1, ts) + [false] == ToBits(x, 8) + (AllBits(1, ts) + [false]);
  }

  lemma AllPacked()
    ensures AllBits(1, AbcTokens()) + [false] == Unpack(AbcBytes())
  {
    hide AllBits, Unpack;
    TuplesPacked();
    var t0, b0 := AbcTuples(), AbcTail();
    LetterStep(97, t0, b0);
    var t1, b1 := [Literal(97)] + t0, [0x61] + b0;
    LetterStep(99, t1, b1);
    var t2, b2 := [Literal(99)] + t1, [0x63] + b1;
    LetterStep(98, t2, b2);
    var t3, b3 := [Literal(98)] + t2, [0x62] + b2;
    LetterStep(97, t3, b3);
    assert [Literal(97)] + t3 == AbcTokens() && [0x61] + b3 == AbcBytes();
  }

  function AbcBytes(): seq<byte> {
    [0x61, 0x62, 0x63, 0x61, 0xF8, 0x73, 0xF1, 0xB0, 0xF9, 0xF4, 0xC6]
  }

  /** The packet: PACKET_COMPRESSED, PACKET_AT_FRONT and eleven bytes. */
  lemma AbcPacket()
    ensures Compress(NewEncoder(1), Abc(24), 24).0 == Packet(Flags(true, true, false, 1), AbcBytes())
  {
    hide ScanAll, Pack, Unpack, AllBits;
    AbcScan();
    AllPacked();
    var b := AllBits(1, AbcTokens());
    UnpackPack(b);
    assert Zeros(1) == [false];
    UnpackInjective(Pack(b), AbcBytes());
  }
}
