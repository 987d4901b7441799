/** The winpr bit stream (winpr/include/winpr/bitstream.h): 32-bit registers in front of a byte buffer, on
    both sides of an MSB-first sequence of bits. */
module BitStream {
  import opened Bits
  import opened BitPieces
  import MppcCode

  /** A UINT32 register as its bits, most significant first. */
  type Word = w: seq<bool> | |w| == 32 witness Zeros(32)

  // ----- register operations

  function Shl(w: Word, n: nat): Word
    requires n <= 32
  {
    w[n..] + Zeros(n)
  }

  function ShrWord(w: Word, n: nat): Word
    requires n <= 32
  {
    Zeros(n) + w[..32 - n]
  }

  function Or(v: Word, w: Word): Word {
    seq(32, i requires 0 <= i < 32 => v[i] || w[i])
  }

  /** `w & ((1 << n) - 1)`. */
  function Mask(w: Word, n: nat): Word
    requires n <= 32
  {
    Zeros(32 - n) + w[32 - n..]
  }

  /** `x << (24 - m)`: a byte from bit m of a word on. */
  function ByteIn(x: byte, m: nat): Word
    requires m <= 24
  {
    Zeros(m) + ToBits(x, 8) + Zeros(24 - m)
  }

  /** n bits from position p on, with zeros past the end. */
  function Ahead(s: seq<bool>, p: nat, n: nat): (r: seq<bool>)
    ensures |r| == n
  {
    seq(n, i requires 0 <= i < n => p + i < |s| && s[p + i])
  }

  lemma AheadInside(s: seq<bool>, p: nat, n: nat)
    requires p + n <= |s|
    ensures Ahead(s, p, n) == s[p..p + n]
  {
  }

  lemma AheadBeyond(s: seq<bool>, p: nat, n: nat)
    requires p >= |s|
    ensures Ahead(s, p, n) == Zeros(n)
  {
  }

  /** One byte of the buffer, or zeros where there is none. */
  lemma ByteAhead(bytes: seq<byte>, i: nat, p: nat)
    requires p == 8 * i
    ensures i < |bytes| ==> Ahead(Unpack(bytes), p, 8) == ToBits(bytes[i], 8)
    ensures i >= |bytes| ==> Ahead(Unpack(bytes), p, 8) == Zeros(8)
  {
    hide ToBits, Unpack, Ahead;
    if i < |bytes| {
      UnpackByte(bytes, i);
      AheadInside(Unpack(bytes), p, 8);
    } else {
      AheadBeyond(Unpack(bytes), p, 8);
    }
  }

  /** A word that has been fetched from bit p on as far as its first m bits. */
  ghost predicate Fetched(w: Word, s: seq<bool>, p: nat, m: nat) {
    m <= 32 && w == Ahead(s, p, m) + Zeros(32 - m)
  }

  lemma FetchStart(s: seq<bool>, p: nat)
    ensures Fetched(Zeros(32), s, p, 0)
  {
  }

  lemma FetchEnd(w: Word, s: seq<bool>, p: nat)
    requires Fetched(w, s, p, 32)
    ensures w == Ahead(s, p, 32)
  {
  }

  lemma FetchPresent(w: Word, s: seq<bool>, p: nat, m: nat, x: byte)
    requires m <= 24 && Fetched(w, s, p, m) && Ahead(s, p + m, 8) == ToBits(x, 8)
    ensures Fetched(Or(w, ByteIn(x, m)), s, p, m + 8)
  {
    hide ToBits;
    var b := ToBits(x, 8);
    forall i | 0 <= i < 32
      ensures Or(w, ByteIn(x, m))[i] == (Ahead(s, p, m + 8) + Zeros(24 - m))[i]
    {
      if m <= i < m + 8 {
        assert b[i - m] == Ahead(s, p + m, 8)[i - m];
      }
    }
  }

  lemma FetchAbsent(w: Word, s: seq<bool>, p: nat, m: nat)
    requires m <= 24 && Fetched(w, s, p, m) && Ahead(s, p + m, 8) == Zeros(8)
    ensures Fetched(w, s, p, m + 8)
  {
    forall i | 0 <= i < 32
      ensures w[i] == (Ahead(s, p, m + 8) + Zeros(24 - m))[i]
    {
      if m <= i < m + 8 {
        assert Zeros(8)[i - m] == Ahead(s, p + m, 8)[i - m];
      }
    }
  }

  /** Byte j of the buffer, where there is one, continues the word. */
  lemma FetchByte(w: Word, bytes: seq<byte>, p: nat, m: nat, j: nat)
    requires m <= 24 && Fetched(w, Unpack(bytes), p, m) && p + m == 8 * j
    ensures j < |bytes| ==> Fetched(Or(w, ByteIn(bytes[j], m)), Unpack(bytes), p, m + 8)
    ensures j >= |bytes| ==> Fetched(w, Unpack(bytes), p, m + 8)
  {
    hide ToBits, Unpack, Ahead, Or, Zeros, ByteIn, Fetched;
    ByteAhead(bytes, j, p + m);
    if j < |bytes| {
      FetchPresent(w, Unpack(bytes), p, m, bytes[j]);
    } else {
      FetchAbsent(w, Unpack(bytes), p, m);
    }
  }

  // ----- reading

  /** Bit i of the low n bits of the accumulator's place, taken from the front of the prefetched word. */
  lemma FrontBit(pre: Word, n: nat, i: nat)
    requires 0 < n < 32 && i < 32
    ensures Mask(ShrWord(pre, 32 - n), n)[i] == (i + n >= 32 && pre[i + n - 32])
  {
    var w := ShrWord(pre, 32 - n);
    assert w[i] == if i < 32 - n then false else pre[i - (32 - n)];
    if i + n >= 32 {
      assert Mask(w, n)[i] == w[32 - n..][i - (32 - n)] == w[i];
    }
  }

  lemma ShiftedBit(acc: Word, pre: Word, n: nat, i: nat)
    requires 0 < n < 32 && i < 32
    ensures Or(Shl(acc, n), Mask(ShrWord(pre, 32 - n), n))[i] == if i + n < 32 then acc[i + n] else pre[i + n - 32]
  {
    hide Mask, ShrWord;
    FrontBit(pre, n, i);
  }

  /** The accumulator after a shift, and the prefetched word, both in terms of the bits ahead. */
  lemma ShiftedRegisters(s: seq<bool>, base: nat, o: nat, n: nat, acc: Word, pre: Word)
    requires 0 < n < 32 && o < 32
    requires acc == Ahead(s, base + o, 32) && pre == Ahead(s, base + 32 + o, 32 - o) + Zeros(o)
    ensures var acc1 := Or(Shl(acc, n), Mask(ShrWord(pre, 32 - n), n));
            && (o + n < 32 ==> acc1 == Ahead(s, base + o + n, 32)
                               && Shl(pre, n) == Ahead(s, base + 32 + o + n, 32 - o - n) + Zeros(o + n))
            && (o + n >= 32 ==> acc1 == Ahead(s, base + o + n, 64 - o - n) + Zeros(o + n - 32))
  {
    var acc1, pre1 := Or(Shl(acc, n), Mask(ShrWord(pre, 32 - n), n)), Shl(pre, n);
    hide Or, Mask, ShrWord;
    if o + n < 32 {
      forall i | 0 <= i < 32
        ensures acc1[i] == Ahead(s, base + o + n, 32)[i]
      {
        ShiftedBit(acc, pre, n, i);
      }
      assert forall i :: 0 <= i < 32 ==> pre1[i] == (Ahead(s, base + 32 + o + n, 32 - o - n) + Zeros(o + n))[i];
    } else {
      forall i | 0 <= i < 32
        ensures acc1[i] == (Ahead(s, base + o + n, 64 - o - n) + Zeros(o + n - 32))[i]
      {
        ShiftedBit(acc, pre, n, i);
      }
    }
  }

  /** The bits a word still lacks come from the next prefetched word. */
  lemma CompletedRegisters(s: seq<bool>, base: nat, o: nat, acc: Word, pre: Word)
    requires 0 < o < 32
    requires acc == Ahead(s, base + o, 32 - o) + Zeros(o) && pre == Ahead(s, base + 32, 32)
    ensures Or(acc, Mask(ShrWord(pre, 32 - o), o)) == Ahead(s, base + o, 32)
    ensures Shl(pre, o) == Ahead(s, base + 32 + o, 32 - o) + Zeros(o)
  {
    hide Mask, ShrWord;
    var acc1 := Or(acc, Mask(ShrWord(pre, 32 - o), o));
    forall i | 0 <= i < 32
      ensures acc1[i] == Ahead(s, base + o, 32)[i]
    {
      FrontBit(pre, o, i);
    }
    assert forall i :: 0 <= i < 32 ==> Shl(pre, o)[i] == (Ahead(s, base + 32 + o, 32 - o) + Zeros(o))[i];
  }

  /** What the registers show is what the MPPC decoder's accumulator stands for. */
  lemma AccumulatorAhead(s: seq<bool>, p: nat)
    ensures Ahead(s, p, 32) == MppcCode.Window(MppcCode.Shift(s, p))
    ensures FromBits(Ahead(s, p, 32)) == MppcCode.Accumulator(MppcCode.Shift(s, p))
  {
  }

  // ----- writing

  /** `bits << (32 - offset)` for n bits that end at the offset. */
  lemma BitsInPlace(bits: nat, n: nat, o: nat, acc: Word, w: seq<bool>)
    requires 0 < n < 32 && bits < Pow2(n) && |w| == o && o + n < 32 && acc == w + Zeros(32 - o)
    ensures Or(acc, Shl(ToBits(bits, 32), 32 - o - n)) == w + ToBits(bits, n) + Zeros(32 - o - n)
  {
    hide ToBits;
    ToBitsSmall(bits, 32 - n, n);
  }

  /** The bits that still fit a word, and those that start the next one. */
  lemma BitsAcross(bits: nat, n: nat, o: nat, acc: Word, w: seq<bool>)
    requires 0 < n < 32 && bits < Pow2(n) && |w| == o < 32 && o + n >= 32 && acc == w + Zeros(32 - o)
    ensures var o1 := o + n - 32;
            && Or(acc, Mask(ShrWord(ToBits(bits, 32), o1), n - o1)) == w + ToBits(bits, n)[..32 - o]
            && Shl(Mask(ToBits(bits, 32), o1), 32 - o1) == ToBits(bits, n)[32 - o..] + Zeros(32 - o1)
  {
    hide ToBits;
    ToBitsSmall(bits, 32 - n, n);
  }

  /** The bytes of the buffer that hold the first n bytes of the bits, where the buffer has room. */
  ghost predicate Stored(buf: seq<byte>, w: seq<bool>, n: nat) {
    |w| >= 8 * n && forall k {:trigger buf[k]} :: 0 <= k < n && k < |buf| ==> ToBits(buf[k], 8) == w[8 * k..8 * k + 8]
  }

  /** Stored bits, with zeros up to a whole byte, are the packed ones. */
  lemma StoredIsPacked(buf: seq<byte>, w: seq<bool>, zeros: nat, n: nat, k: nat)
    requires k < (|w| + 7) / 8 <= n && k < |buf| && Stored(buf, w + Zeros(zeros), n)
    ensures buf[k] == Pack(w)[k]
  {
    hide ToBits, Pack, Unpack, Zeros;
    UnpackPack(w);
    UnpackByte(Pack(w), k);
    var pad := 8 * ((|w| + 7) / 8) - |w|;
    assert ToBits(buf[k], 8) == (w + Zeros(zeros))[8 * k..8 * k + 8];
    ZeroTail(w, zeros, pad, 8 * k, 8 * k + 8);
    SameByte(buf[k], Pack(w)[k]);
  }

  lemma ZeroTail(w: seq<bool>, a: nat, b: nat, i: nat, j: nat)
    requires i <= j <= |w| + a && j <= |w| + b
    ensures (w + Zeros(a))[i..j] == (w + Zeros(b))[i..j]
  {
  }

  lemma SameByte(x: byte, y: byte)
    requires ToBits(x, 8) == ToBits(y, 8)
    ensures x == y
  {
    hide ToBits, FromBits;
    FromTo(x, 8);
    FromTo(y, 8);
    Pow2Of8();
  }

  lemma Pow2Of8()
    ensures Pow2(8) == 256
  {
    assert Pow2(4) == 16 && Pow2(8) == 16 * Pow2(4);
  }

  /** Byte k of a word. */
  function ByteOf(w: Word, k: nat): byte
    requires k < 4
  {
    FromBitsBound(w[8 * k..8 * k + 8]);
    Pow2Of8();
    FromBits(w[8 * k..8 * k + 8])
  }

  lemma ByteBits(w: Word, k: nat)
    requires k < 4
    ensures ToBits(ByteOf(w, k), 8) == w[8 * k..8 * k + 8]
  {
    hide ToBits, FromBits;
    ToFrom(w[8 * k..8 * k + 8]);
  }

  lemma NothingOr(w: Word)
    ensures Or(Zeros(32), w) == w
  {
  }

  lemma StoredLonger(buf: seq<byte>, w: seq<bool>, b: seq<bool>, n: nat)
    requires Stored(buf, w, n)
    ensures Stored(buf, w + b, n)
  {
    hide ToBits;
    assert forall k :: 0 <= k < n ==> (w + b)[8 * k..8 * k + 8] == w[8 * k..8 * k + 8];
  }

  lemma PrefixSlice(w: seq<bool>, v: seq<bool>, i: nat, j: nat)
    requires w <= v && i <= j <= |w|
    ensures w[i..j] == v[i..j]
  {
  }

  lemma PartOfSlice(v: seq<bool>, a: nat, b: nat, i: nat, j: nat)
    requires a <= b <= |v| && i <= j <= b - a
    ensures v[a..b][i..j] == v[a + i..a + j]
  {
    var x, y := v[a..b][i..j], v[a + i..a + j];
    forall k | 0 <= k < j - i
      ensures x[k] == y[k]
    {
      assert x[k] == v[a..b][i + k] == v[a + (i + k)];
    }
  }

  /** One more word is in the buffer. */
  lemma WordStored(before: seq<byte>, after: seq<byte>, w: seq<bool>, n: nat, acc: Word, v: seq<bool>)
    requires Stored(before, w, n) && |after| == |before| && w <= v && |v| >= 8 * n + 32 && v[8 * n..8 * n + 32] == acc
    requires forall k {:trigger acc[8 * k..8 * k + 8]} :: 0 <= k < 4 && n + k < |after| ==>
      ToBits(after[n + k], 8) == acc[8 * k..8 * k + 8]
    requires forall k :: 0 <= k < |after| && !(n <= k < n + 4) ==> after[k] == before[k]
    ensures Stored(after, v, n + 4)
  {
    hide ToBits;
    forall k | 0 <= k < n + 4 && k < |after|
      ensures ToBits(after[k], 8) == v[8 * k..8 * k + 8]
    {
      if k < n {
        assert ToBits(before[k], 8) == w[8 * k..8 * k + 8];
        PrefixSlice(w, v, 8 * k, 8 * k + 8);
      } else {
        var j := k - n;
        assert ToBits(after[n + j], 8) == acc[8 * j..8 * j + 8];
        PartOfSlice(v, 8 * n, 8 * n + 32, 8 * j, 8 * j + 8);
      }
    }
  }

  /** The full word between the bits written before and after it. */
  lemma WordWritten(was: seq<bool>, w: seq<bool>, b: seq<bool>, p: nat, acc: Word)
    requires p <= |was| && w == was[p..] && |w| < 32 && |w| + |b| >= 32 && acc == w + b[..32 - |w|]
    ensures (was + b)[p..p + 32] == acc && (was + b)[p + 32..] == b[32 - |w|..]
  {
  }

  /** A flushed word that was completed by the first bits of b. */
  lemma WordFlushed(before: seq<byte>, after: seq<byte>, was: seq<bool>, w: seq<bool>, b: seq<bool>, n: nat, acc: Word)
    requires Stored(before, was, n) && |after| == |before| && w == was[8 * n..]
    requires |w| < 32 && |w| + |b| >= 32 && acc == w + b[..32 - |w|]
    requires forall k {:trigger acc[8 * k..8 * k + 8]} :: 0 <= k < 4 && n + k < |after| ==>
      ToBits(after[n + k], 8) == acc[8 * k..8 * k + 8]
    requires forall k :: 0 <= k < |after| && !(n <= k < n + 4) ==> after[k] == before[k]
    ensures Stored(after, was + b, n + 4) && |was + b| >= 8 * (n + 4) && (was + b)[8 * (n + 4)..] == b[32 - |w|..]
  {
    hide ToBits, Stored;
    StoredReach(before, was, n);
    WordWritten(was, w, b, 8 * n, acc);
    StoredLonger(before, was, b, n);
    WordStored(before, after, was + b, n, acc, was + b);
  }

  lemma StoredReach(buf: seq<byte>, w: seq<bool>, n: nat)
    requires Stored(buf, w, n)
    ensures |w| >= 8 * n
  {
  }

  // ----- the stream

  class WinprBitStream {
    const buffer: array<byte>
    const capacity: nat
    var pointer: nat
    var position: nat
    var length: nat
    var offset: nat
    var prefetch: Word
    var accumulator: Word
    ghost var written: seq<bool>

    /** BitStream_Attach. */
    constructor (bytes: array<byte>, size: nat)
      requires size <= bytes.Length
      ensures buffer == bytes && capacity == size && position == pointer == offset == 0 && length == 8 * size
      ensures written == [] && Writing()
    {
      buffer, capacity, pointer, position, offset, length := bytes, size, 0, 0, 0, 8 * size;
      accumulator, prefetch, written := Zeros(32), Zeros(32), [];
    }

    ghost predicate Placed()
      reads this
    {
      offset < 32 && position == 8 * pointer + offset && length == 8 * capacity && capacity <= buffer.Length
    }

    /** The part of the buffer the stream uses. */
    ghost function Bytes(): seq<byte>
      reads this, buffer
      requires capacity <= buffer.Length
    {
      buffer[..capacity]
    }

    /** The registers show the bits ahead of the position. */
    ghost predicate Reading()
      reads this, buffer
    {
      && Placed() && accumulator == Ahead(Unpack(Bytes()), position, 32)
      && prefetch == Ahead(Unpack(Bytes()), 8 * pointer + 32 + offset, 32 - offset) + Zeros(offset)
    }

    /** Whole words of what was written are in the buffer, the rest is in the accumulator. */
    ghost predicate Writing()
      reads this, buffer
    {
      && Placed() && |written| == position && accumulator == written[8 * pointer..] + Zeros(32 - offset)
      && Stored(Bytes(), written, pointer)
    }

    /** Four bytes from the given place on, those past the end as zeros. */
    method Load(at: nat) returns (w: Word)
      requires capacity <= buffer.Length
      ensures w == Ahead(Unpack(Bytes()), 8 * at, 32)
    {
      hide ByteIn, Or, Ahead, Unpack, Fetched;
      ghost var bytes, p := Bytes(), 8 * at;
      w := Zeros(32);
      FetchStart(Unpack(bytes), p);
      FetchByte(w, bytes, p, 0, at);
      if at + 0 < capacity { w := Or(w, ByteIn(buffer[at + 0], 0)); }
      FetchByte(w, bytes, p, 8, at + 1);
      if at + 1 < capacity { w := Or(w, ByteIn(buffer[at + 1], 8)); }
      FetchByte(w, bytes, p, 16, at + 2);
      if at + 2 < capacity { w := Or(w, ByteIn(buffer[at + 2], 16)); }
      FetchByte(w, bytes, p, 24, at + 3);
      if at + 3 < capacity { w := Or(w, ByteIn(buffer[at + 3], 24)); }
      FetchEnd(w, Unpack(bytes), p);
    }

    /** BitStream_Fetch, with BitStream_Prefetch in it. */
    method Fetch()
      requires Placed() && offset == 0
      modifies this`accumulator, this`prefetch
      ensures Reading()
    {
      accumulator := Load(pointer);
      prefetch := Load(pointer + 4);
    }

    /** BitStream_Shift: fewer than 32 bits are consumed, any other number does nothing. */
    method Shift(nbits: nat)
      requires Reading()
      modifies this`pointer, this`position, this`offset, this`accumulator, this`prefetch
      ensures Reading() && position == old(position) + if nbits < 32 then nbits else 0
    {
      hide Or, Shl, Mask, ShrWord, Ahead, Unpack;
      if 0 < nbits < 32 {
        ghost var s := Unpack(Bytes());
        ShiftedRegisters(s, 8 * pointer, offset, nbits, accumulator, prefetch);
        accumulator := Or(Shl(accumulator, nbits), Mask(ShrWord(prefetch, 32 - nbits), nbits));
        prefetch := Shl(prefetch, nbits);
        position, offset := position + nbits, offset + nbits;
        if offset >= 32 {
          offset, pointer := offset - 32, pointer + 4;
          prefetch := Load(pointer + 4);
          if offset != 0 {
            CompletedRegisters(s, 8 * pointer, offset, accumulator, prefetch);
            accumulator := Or(accumulator, Mask(ShrWord(prefetch, 32 - offset), offset));
            prefetch := Shl(prefetch, offset);
          }
        }
      }
    }

    /** BitStream_Flush: the four bytes of the accumulator, as far as there is room. */
    method Flush()
      requires capacity <= buffer.Length
      modifies buffer
      ensures forall k {:trigger accumulator[8 * k..8 * k + 8]} :: 0 <= k < 4 && pointer + k < capacity ==>
        ToBits(Bytes()[pointer + k], 8) == accumulator[8 * k..8 * k + 8]
      ensures forall k :: 0 <= k < capacity && !(pointer <= k < pointer + 4) ==> Bytes()[k] == old(Bytes())[k]
      ensures buffer[capacity..] == old(buffer[capacity..])
    {
      hide ToBits, ByteOf;
      ByteBits(accumulator, 0);
      ByteBits(accumulator, 1);
      ByteBits(accumulator, 2);
      ByteBits(accumulator, 3);
      if pointer + 0 < capacity { buffer[pointer + 0] := ByteOf(accumulator, 0); }
      if pointer + 1 < capacity { buffer[pointer + 1] := ByteOf(accumulator, 1); }
      if pointer + 2 < capacity { buffer[pointer + 2] := ByteOf(accumulator, 2); }
      if pointer + 3 < capacity { buffer[pointer + 3] := ByteOf(accumulator, 3); }
    }

    /** The last BitStream_Flush: the buffer holds the packed bits, as far as there is room. */
    method Finish()
      requires Writing()
      modifies buffer
      ensures forall k {:trigger buffer[k]} :: 0 <= k < (|written| + 7) / 8 && k < capacity ==>
        buffer[k] == Pack(written)[k]
      ensures buffer[capacity..] == old(buffer[capacity..])
    {
      hide ToBits, Stored, Pack;
      ghost var before := Bytes();
      Flush();
      WordStored(before, Bytes(), written, pointer, accumulator, written + Zeros(32 - offset));
      forall k | 0 <= k < (|written| + 7) / 8 && k < capacity
        ensures buffer[k] == Pack(written)[k]
      {
        StoredIsPacked(Bytes(), written, 32 - offset, pointer + 4, k);
      }
    }

    /** BitStream_Write_Bits. */
    method WriteBits(bits: nat, nbits: nat)
      requires Writing() && 0 < nbits < 32 && bits < Pow2(nbits)
      modifies this`pointer, this`position, this`offset, this`accumulator, this`written, buffer
      ensures Writing() && written == old(written) + ToBits(bits, nbits)
      ensures buffer[capacity..] == old(buffer[capacity..])
    {
      hide ToBits, Or, Shl, Mask, ShrWord, Stored, Pack;
      ghost var was, before, o, b := written, Bytes(), offset, ToBits(bits, nbits);
      ghost var w := was[8 * pointer..];
      written := was + b;
      if offset + nbits < 32 {
        BitsInPlace(bits, nbits, o, accumulator, w);
        position, offset := position + nbits, offset + nbits;
        accumulator := Or(accumulator, Shl(ToBits(bits, 32), 32 - offset));
        StoredLonger(before, was, b, pointer);
        assert written[8 * pointer..] == w + b;
      } else {
        BitsAcross(bits, nbits, o, accumulator, w);
        position, offset := position + nbits, offset + nbits - 32;
        accumulator := Or(accumulator, Mask(ShrWord(ToBits(bits, 32), offset), nbits - offset));
        Flush();
        WordFlushed(before, Bytes(), was, w, b, pointer, accumulator);
        accumulator, pointer := Zeros(32), pointer + 4;
        if offset != 0 {
          NothingOr(Shl(Mask(ToBits(bits, 32), offset), 32 - offset));
          accumulator := Or(accumulator, Shl(Mask(ToBits(bits, 32), offset), 32 - offset));
        }
      }
    }
  }
}
