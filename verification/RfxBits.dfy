/** The RemoteFX bit stream (libfreerdp/codec/rfx_bitstream.h): values are put and read byte piece by
    byte piece, and a zeroed buffer gives back every value that was put into it. */
module RfxBits {
  import opened Basics
  import opened Bits
  import opened BitPieces

  // ----- on bits

  function Min(a: nat, b: nat): nat {
    if a < b then a else b
  }

  /** The bits s with w or-ed in at position pos. */
  function OrAt(s: seq<bool>, pos: nat, w: seq<bool>): (r: seq<bool>)
    requires pos + |w| <= |s|
    ensures |r| == |s|
  {
    seq(|s|, i requires 0 <= i < |s| => s[i] || (pos <= i < pos + |w| && w[i - pos]))
  }

  /** rfx_bitstream_put_bits: the low n bits of v, as many of them as there is room for. */
  function WithBits(s: seq<bool>, pos: nat, v: nat, n: nat): (r: seq<bool>)
    requires pos <= |s|
    ensures |r| == |s|
  {
    OrAt(s, pos, ToBits(v, n)[..Min(n, |s| - pos)])
  }

  /** rfx_bitstream_get_bits: the next n bits, as many as there are. */
  function BitsAt(s: seq<bool>, pos: nat, n: nat): nat
    requires pos <= |s|
  {
    FromBits(s[pos..pos + Min(n, |s| - pos)])
  }

  /** A value and the width it is written with. */
  datatype Field = Field(value: u16, width: nat)

  function Widths(fields: seq<Field>): nat {
    if fields == [] then 0 else fields[0].width + Widths(fields[1..])
  }

  function PutAll(s: seq<bool>, pos: nat, fields: seq<Field>): (r: seq<bool>)
    requires pos + Widths(fields) <= |s|
    ensures |r| == |s|
    decreases |fields|
  {
    if fields == [] then s
    else PutAll(WithBits(s, pos, fields[0].value, fields[0].width), pos + fields[0].width, fields[1..])
  }

  function GetAll(s: seq<bool>, pos: nat, fields: seq<Field>): (r: seq<nat>)
    requires pos + Widths(fields) <= |s|
    ensures |r| == |fields|
    decreases |fields|
  {
    if fields == [] then []
    else [BitsAt(s, pos, fields[0].width)] + GetAll(s, pos + fields[0].width, fields[1..])
  }

  predicate ZeroFrom(s: seq<bool>, pos: nat) {
    forall i :: pos <= i < |s| ==> !s[i]
  }

  lemma PutOne(s: seq<bool>, pos: nat, v: nat, n: nat)
    requires pos + n <= |s| && ZeroFrom(s, pos)
    ensures var r := WithBits(s, pos, v, n);
            r[..pos] == s[..pos] && r[pos..pos + n] == ToBits(v, n) && ZeroFrom(r, pos + n)
  {
  }

  lemma {:induction false} PutAllKeeps(s: seq<bool>, pos: nat, fields: seq<Field>)
    requires pos + Widths(fields) <= |s| && ZeroFrom(s, pos)
    ensures PutAll(s, pos, fields)[..pos] == s[..pos]
    decreases |fields|
  {
    hide WithBits;
    if fields == [] {
    } else {
      var n := fields[0].width;
      PutOne(s, pos, fields[0].value, n);
      var r := WithBits(s, pos, fields[0].value, n);
      PutAllKeeps(r, pos + n, fields[1..]);
      assert r[..pos + n][..pos] == r[..pos];
      assert PutAll(r, pos + n, fields[1..])[..pos + n][..pos] == PutAll(r, pos + n, fields[1..])[..pos];
    }
  }

  /** Every sequence of values put into zeroed bits is read back with the same widths. */
  lemma {:induction false} FieldsRoundTrip(s: seq<bool>, pos: nat, fields: seq<Field>)
    requires pos + Widths(fields) <= |s| && ZeroFrom(s, pos)
    ensures forall i :: 0 <= i < |fields| ==>
      GetAll(PutAll(s, pos, fields), pos, fields)[i] == fields[i].value % Pow2(fields[i].width)
    decreases |fields|
  {
    hide WithBits, FromBits, ToBits, Pow2;
    if fields == [] {
    } else {
      var n := fields[0].width;
      var r := WithBits(s, pos, fields[0].value, n);
      PutOne(s, pos, fields[0].value, n);
      FieldsRoundTrip(r, pos + n, fields[1..]);
      PutAllKeeps(r, pos + n, fields[1..]);
      var all := PutAll(s, pos, fields);
      assert all[pos..pos + n] == all[..pos + n][pos..] == r[..pos + n][pos..] == ToBits(fields[0].value, n);
      FromTo(fields[0].value, n);
    }
  }

  /** A value that fits its width comes back unchanged. */
  lemma FieldFits(f: Field)
    requires f.width >= 16 || f.value < Pow2(f.width)
    ensures f.value % Pow2(f.width) == f.value
  {
    if f.width >= 16 {
      Pow2Add(f.width - 16, 16);
      MulGrows(Pow2(16), Pow2(f.width - 16));
      Pow2Of16();
    }
    DivModUnique(f.value, Pow2(f.width), 0, f.value);
  }

  lemma Pow2Of16()
    ensures Pow2(16) == 65536
  {
    assert Pow2(4) == 16 && Pow2(8) == 16 * Pow2(4) && Pow2(12) == 16 * Pow2(8) && Pow2(16) == 16 * Pow2(12);
  }

  // ----- pieces of a value and of a byte

  /** `((bits >> (nbits - b)) & ((1 << b) - 1)) << (bits_left - b)`. */
  function Shifted(bits: nat, nbits: nat, left: nat, b: nat): nat
    requires b <= nbits && b <= left
  {
    Shr(bits, nbits - b) % Pow2(b) * Pow2(left - b)
  }

  /** The shifted piece is a byte with the next b bits at the first free place. */
  lemma ShiftedBits(bits: nat, nbits: nat, left: nat, b: nat)
    requires b <= nbits && b <= left <= 8
    ensures Shifted(bits, nbits, left, b) < 256
    ensures ToBits(Shifted(bits, nbits, left, b), 8) == Zeros(8 - left) + ToBits(bits, nbits)[..b] + Zeros(left - b)
  {
    hide ToBits, Pow2;
    var u := Shr(bits, nbits - b);
    var c := u % Pow2(b);
    Piece(bits, nbits, 0, b);
    ToBitsMod(u, b);
    ToBitsShifted(c, b, left - b);
    ShiftedBound(c, b, left);
    ToBitsSmall(c * Pow2(left - b), 8 - left, left);
    assert Zeros(8 - left) + (ToBits(bits, nbits)[..b] + Zeros(left - b))
        == Zeros(8 - left) + ToBits(bits, nbits)[..b] + Zeros(left - b);
  }

  lemma ShiftedBound(c: nat, b: nat, left: nat)
    requires b <= left <= 8 && c < Pow2(b)
    ensures c * Pow2(left - b) < Pow2(left) <= 256
  {
    Pow2Add(b, left - b);
    Below(c, Pow2(b), Pow2(left - b));
    Pow2Add(left, 8 - left);
    MulGrows(Pow2(left), Pow2(8 - left));
    assert Pow2(4) == 16 && Pow2(8) == 16 * Pow2(4);
  }

  lemma Below(c: nat, p: nat, q: nat)
    requires c < p && q > 0
    ensures c * q < p * q
  {
  }

  /** `n << b | (x >> (bits_left - b)) & ((1 << b) - 1)`: the low b bits of the shifted n are clear. */
  function Gather(n: nat, x: byte, left: nat, b: nat): nat
    requires b <= left
  {
    n * Pow2(b) + Shr(x, left - b) % Pow2(b)
  }

  /** Bitwise or of two bytes. */
  function OrByte(x: byte, y: byte): (r: byte)
    ensures ToBits(r, 8) == OrAt(ToBits(x, 8), 0, ToBits(y, 8))
  {
    var bits := OrAt(ToBits(x, 8), 0, ToBits(y, 8));
    FromBitsBound(bits);
    ToFrom(bits);
    assert Pow2(4) == 16 && Pow2(8) == 16 * Pow2(4);
    FromBits(bits)
  }

  // ----- the buffer as bits

  /** Or-ing bits into one byte ors them into the bit stream. */
  lemma OrInByte(before: seq<byte>, i: nat, y: byte, off: nat, w: seq<bool>)
    requires i < |before| && off + |w| <= 8 && ToBits(y, 8) == Zeros(off) + w + Zeros(8 - off - |w|)
    ensures Unpack(before[i := OrByte(before[i], y)]) == OrAt(Unpack(before), 8 * i + off, w)
  {
    hide ToBits, Unpack, OrByte;
    var after := before[i := OrByte(before[i], y)];
    forall p | 0 <= p < 8 * |before|
      ensures Unpack(after)[p] == OrAt(Unpack(before), 8 * i + off, w)[p]
    {
      var q, k := p / 8, p % 8;
      UnpackAt(before, q, k);
      UnpackAt(after, q, k);
      assert p == 8 * q + k;
      if q == i {
        assert ToBits(after[i], 8)[k] == (ToBits(before[i], 8)[k] || ToBits(y, 8)[k]);
      }
    }
  }

  /** RFX_BITSTREAM over a whole buffer. */
  class RfxBitStream {
    const buffer: array<byte>
    var bytePos: nat
    var bitsLeft: nat

    ghost predicate Valid()
      reads this
    {
      1 <= bitsLeft <= 8 && bytePos <= buffer.Length && (bytePos == buffer.Length ==> bitsLeft == 8)
    }

    ghost function Bits(): (s: seq<bool>)
      reads this, buffer
      ensures |s| == 8 * buffer.Length
    {
      Unpack(buffer[..])
    }

    /** Bits already put or read. */
    ghost function Pos(): (p: nat)
      reads this
      requires Valid()
      ensures p <= 8 * buffer.Length
    {
      8 * bytePos + (8 - bitsLeft)
    }

    /** rfx_bitstream_attach. */
    constructor (bytes: array<byte>)
      ensures Valid() && buffer == bytes && Pos() == 0
    {
      buffer, bytePos, bitsLeft := bytes, 0, 8;
    }

    /** The end of both loops: b bits of the current byte are done. */
    method Advance(b: nat)
      requires Valid() && b <= bitsLeft && bytePos < buffer.Length
      modifies this
      ensures Valid() && Pos() == old(Pos()) + b
    {
      bitsLeft := bitsLeft - b;
      if bitsLeft == 0 {
        bitsLeft, bytePos := 8, bytePos + 1;
      }
    }

    /** rfx_bitstream_put_bits. */
    method PutBits(bits: u16, nbits0: nat)
      requires Valid()
      modifies this, buffer
      ensures Valid() && Pos() == old(Pos()) + Min(nbits0, |Bits()| - old(Pos()))
      ensures Bits() == WithBits(old(Bits()), old(Pos()), bits, nbits0)
    {
      hide ToBits, Unpack, Shifted, OrByte, Pow2, OrAt;
      ghost var was, at, w := Bits(), Pos(), ToBits(bits, nbits0);
      var nbits := nbits0;
      NothingOrred(was, at, w);
      while bytePos < buffer.Length && nbits > 0
        invariant Valid() && 0 <= nbits <= nbits0 && Pos() == at + (nbits0 - nbits)
        invariant Bits() == OrAt(was, at, w[..nbits0 - nbits])
      {
        var b := if nbits > bitsLeft then bitsLeft else nbits;
        ghost var before, k := buffer[..], nbits0 - nbits;
        ShiftedBits(bits, nbits, bitsLeft, b);
        NextPiece(bits, nbits0, k, b);
        OrInByte(before, bytePos, Shifted(bits, nbits, bitsLeft, b), 8 - bitsLeft, w[k..k + b]);
        buffer[bytePos] := OrByte(buffer[bytePos], Shifted(bits, nbits, bitsLeft, b));
        assert buffer[..] == before[bytePos := buffer[bytePos]];
        OrMore(was, at, w, k, b);
        Advance(b);
        nbits := nbits - b;
      }
    }

    /** rfx_bitstream_get_bits. */
    method GetBits(nbits0: nat) returns (n: nat)
      requires Valid()
      modifies this
      ensures Valid() && Pos() == old(Pos()) + Min(nbits0, |Bits()| - old(Pos()))
      ensures n == BitsAt(Bits(), old(Pos()), nbits0) % 65536
      ensures nbits0 <= 16 ==> n == BitsAt(Bits(), old(Pos()), nbits0)
    {
      hide ToBits, Unpack, Gather, FromBits;
      ghost var s, at := Bits(), Pos();
      var nbits := nbits0;
      n := 0;
      NoBits();
      assert s[at..at] == [];
      while bytePos < buffer.Length && nbits > 0
        invariant Valid() && 0 <= nbits <= nbits0 && Pos() == at + (nbits0 - nbits)
        invariant n == FromBits(s[at..at + (nbits0 - nbits)]) % 65536
      {
        var b := if nbits > bitsLeft then bitsLeft else nbits;
        GatherMod(FromBits(s[at..at + (nbits0 - nbits)]), buffer[bytePos], bitsLeft, b);
        n := Gather(n, buffer[bytePos], bitsLeft, b) % 65536;
        ReadPiece(buffer[..], bytePos, 8 - bitsLeft, b, at);
        Advance(b);
        nbits := nbits - b;
      }
      FitsSixteen(s[at..at + (nbits0 - nbits)], nbits0);
    }
  }

  lemma NoBits()
    ensures FromBits([]) == 0
  {
  }

  /** The UINT16 loses nothing that a later piece would need. */
  lemma GatherMod(n: nat, x: byte, left: nat, b: nat)
    requires b <= left
    ensures Gather(n % 65536, x, left, b) % 65536 == Gather(n, x, left, b) % 65536
  {
    hide Pow2, Shr;
    var p, r := Pow2(b), Shr(x, left - b) % Pow2(b);
    var q, y := n / 65536, n % 65536;
    Distribute(q * 65536, y, p);
    Regrouped(q, p);
    WholeTurns(q * p, y * p + r);
  }

  lemma Regrouped(q: nat, p: nat)
    ensures q * 65536 * p == 65536 * (q * p)
  {
  }

  lemma WholeTurns(k: nat, z: nat)
    ensures (65536 * k + z) % 65536 == z % 65536
  {
    DivModUnique(65536 * k + z, 65536, k + z / 65536, z % 65536);
  }

  lemma FitsSixteen(s: seq<bool>, n: nat)
    requires |s| <= n
    ensures n <= 16 ==> FromBits(s) < 65536
  {
    if n <= 16 {
      FromBitsBound(s);
      Pow2Add(|s|, 16 - |s|);
      MulGrows(Pow2(|s|), Pow2(16 - |s|));
      Pow2Of16();
    }
  }

  /** What is left of the value starts with bits k up to k + b of its n bits. */
  lemma NextPiece(v: nat, n: nat, k: nat, b: nat)
    requires k + b <= n
    ensures ToBits(v, n - k)[..b] == ToBits(v, n)[k..k + b]
  {
    Piece(v, n, k, b);
    Piece(v, n - k, 0, b);
  }

  lemma NothingOrred(s: seq<bool>, at: nat, w: seq<bool>)
    requires at <= |s|
    ensures OrAt(s, at, w[..0]) == s
  {
  }

  lemma OrMore(s: seq<bool>, at: nat, w: seq<bool>, k: nat, b: nat)
    requires k + b <= |w| && at + k + b <= |s|
    ensures OrAt(OrAt(s, at, w[..k]), at + k, w[k..k + b]) == OrAt(s, at, w[..k + b])
  {
  }

  lemma SliceOfByte(s: seq<bool>, at: nat, off: nat, b: nat)
    requires at + 8 <= |s| && off + b <= 8
    ensures s[at..at + 8][off..off + b] == s[at + off..at + off + b]
  {
    var x, y := s[at..at + 8][off..off + b], s[at + off..at + off + b];
    assert |x| == |y|;
    forall k | 0 <= k < b ensures x[k] == y[k] {
      assert x[k] == s[at..at + 8][off + k] == s[at + (off + k)];
    }
  }

  /** Bits off up to off + b of byte i, as they stand in the stream. */
  lemma PieceOfByte(bytes: seq<byte>, i: nat, off: nat, b: nat)
    requires i < |bytes| && off + b <= 8
    ensures Unpack(bytes)[8 * i + off..8 * i + off + b] == ToBits(Shr(bytes[i], 8 - off - b), b)
  {
    hide ToBits, Unpack, Shr;
    UnpackByte(bytes, i);
    Piece(bytes[i], 8, off, b);
    SliceOfByte(Unpack(bytes), 8 * i, off, b);
  }

  lemma GatherBits(before: seq<bool>, x: byte, left: nat, b: nat)
    requires b <= left
    ensures Gather(FromBits(before), x, left, b) == FromBits(before + ToBits(Shr(x, left - b), b))
  {
    hide ToBits, Pow2, FromBits, Shr;
    FromTo(Shr(x, left - b), b);
    FromConcat(before, ToBits(Shr(x, left - b), b));
  }

  /** One piece more of a number that starts at bit `at`. */
  lemma ReadPiece(bytes: seq<byte>, i: nat, off: nat, b: nat, at: nat)
    requires i < |bytes| && off + b <= 8 && at <= 8 * i + off
    ensures var s, p := Unpack(bytes), 8 * i + off;
            Gather(FromBits(s[at..p]), bytes[i], 8 - off, b) == FromBits(s[at..p + b])
  {
    hide ToBits, Unpack, FromBits, Gather, Shr;
    var s, p := Unpack(bytes), 8 * i + off;
    PieceOfByte(bytes, i, off, b);
    GatherBits(s[at..p], bytes[i], 8 - off, b);
    assert s[at..p] + s[p..p + b] == s[at..p + b];
  }
}
