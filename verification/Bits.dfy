/** Bytes and most-significant-bit-first bit sequences. */
module Bits {
  import opened Basics

  type byte = x: int | 0 <= x < 256

  function Pow2(n: nat): (p: nat)
    ensures p > 0
  {
    if n == 0 then 1 else 2 * Pow2(n - 1)
  }

  /** The low n bits of v, most significant first. */
  function ToBits(v: nat, n: nat): (b: seq<bool>)
    ensures |b| == n
  {
    if n == 0 then [] else ToBits(v / 2, n - 1) + [v % 2 == 1]
  }

  function Bit(b: bool): nat {
    if b then 1 else 0
  }

  function FromBits(b: seq<bool>): nat {
    if b == [] then 0 else 2 * FromBits(b[..|b| - 1]) + Bit(b[|b| - 1])
  }

  lemma {:induction false} FromBitsBound(b: seq<bool>)
    ensures FromBits(b) < Pow2(|b|)
  {
    if b != [] { FromBitsBound(b[..|b| - 1]); }
  }

  lemma {:induction false} Pow2Add(m: nat, n: nat)
    ensures Pow2(m + n) == Pow2(m) * Pow2(n)
  {
    if n == 0 {
    } else {
      Pow2Add(m, n - 1);
      assert Pow2(m + n) == 2 * (Pow2(m) * Pow2(n - 1));
    }
  }

  lemma {:induction false} FromConcat(a: seq<bool>, b: seq<bool>)
    ensures FromBits(a + b) == FromBits(a) * Pow2(|b|) + FromBits(b)
  {
    if b == [] {
      assert a + b == a;
    } else {
      var init, last := b[..|b| - 1], b[|b| - 1];
      assert (a + b)[..|a + b| - 1] == a + init;
      FromConcat(a, init);
      Double(FromBits(a), Pow2(|init|));
    }
  }

  lemma Double(x: nat, p: nat)
    ensures 2 * (x * p) == x * (2 * p)
  {
  }

  /** Reading back n bits gives the value modulo 2^n. */
  lemma {:induction false} FromTo(v: nat, n: nat)
    ensures FromBits(ToBits(v, n)) == v % Pow2(n)
  {
    if n > 0 {
      FromTo(v / 2, n - 1);
      assert ToBits(v, n)[..n - 1] == ToBits(v / 2, n - 1);
      HalfMod(v, Pow2(n - 1));
    }
  }

  lemma HalfMod(v: nat, p: nat)
    requires p > 0
    ensures v % (2 * p) == 2 * ((v / 2) % p) + v % 2
  {
    var q := (v / 2) / p;
    assert v / 2 == p * q + (v / 2) % p;
    assert v == (2 * p) * q + (2 * ((v / 2) % p) + v % 2);
    DivModUnique(v, 2 * p, q, 2 * ((v / 2) % p) + v % 2);
  }

  lemma DivModUnique(v: nat, d: nat, q: int, r: int)
    requires d > 0 && v == d * q + r && 0 <= r < d
    ensures v / d == q && v % d == r
  {
    var q', r' := v / d, v % d;
    assert v == d * q' + r';
    assert d * (q - q') == r' - r;
    if q > q' { MulGrows(d, q - q'); }
    if q < q' { MulGrows(d, q' - q); }
  }

  /** Adding to a number below the next multiple, or up to it. */
  lemma ModAdd(w: nat, bs: nat, n: nat)
    requires bs > 0
    ensures w % bs + n < bs ==> (w + n) % bs == w % bs + n
    ensures w % bs + n == bs ==> (w + n) % bs == 0
  {
    var q, r := w / bs, w % bs;
    if r + n < bs {
      DivModUnique(w + n, bs, q, r + n);
    } else if r + n == bs {
      assert bs * (q + 1) == bs * q + bs;
      DivModUnique(w + n, bs, q + 1, 0);
    }
  }

  lemma MulGrows(d: nat, k: int)
    requires k >= 1
    ensures d * k >= d
  {
  }

  lemma LastDigit(x: nat, b: bool)
    ensures (2 * x + Bit(b)) / 2 == x && ((2 * x + Bit(b)) % 2 == 1) == b
  {
  }

  lemma ToBitsLast(v: nat, n: nat)
    requires n > 0
    ensures ToBits(v, n) == ToBits(v / 2, n - 1) + [v % 2 == 1]
  {
  }

  lemma FromBitsLast(b: seq<bool>)
    requires b != []
    ensures FromBits(b) == 2 * FromBits(b[..|b| - 1]) + Bit(b[|b| - 1])
  {
  }

  lemma {:induction false} ToFrom(b: seq<bool>)
    ensures ToBits(FromBits(b), |b|) == b
  {
    if b != [] {
      hide ToBits, FromBits, Bit;
      var init, last := b[..|b| - 1], b[|b| - 1];
      ToFrom(init);
      FromBitsLast(b);
      LastDigit(FromBits(init), last);
      ToBitsLast(FromBits(b), |b|);
      assert b == init + [last];
    }
  }

  function Zeros(n: nat): (z: seq<bool>)
    ensures |z| == n
  {
    seq(n, _ => false)
  }

  // ----- runs of bytes

  function Repeat(value: byte, n: nat): (r: seq<byte>)
    ensures |r| == n && forall k :: 0 <= k < n ==> r[k] == value
  {
    seq(n, _ => value)
  }

  /** A decoded prefix in front of the rest of a decoding. */
  function Prepend(front: seq<byte>, r: Option<(seq<byte>, seq<byte>)>): Option<(seq<byte>, seq<byte>)> {
    match r
    case None => None
    case Some((bytes, rest)) => Some((front + bytes, rest))
  }

  // ----- packing bits into bytes

  function Unpack(bytes: seq<byte>): (b: seq<bool>)
    ensures |b| == 8 * |bytes|
  {
    if bytes == [] then [] else ToBits(bytes[0], 8) + Unpack(bytes[1..])
  }

  /** The bytes of a bit stream, the last one filled up with zero bits. */
  function Pack(b: seq<bool>): (bytes: seq<byte>)
    ensures |bytes| == (|b| + 7) / 8
    decreases |b|
  {
    if b == [] then []
    else if |b| < 8 then FromBitsBound(b + Zeros(8 - |b|)); [FromBits(b + Zeros(8 - |b|)) as byte]
    else FromBitsBound(b[..8]); [FromBits(b[..8])] + Pack(b[8..])
  }

  /** Unpacking gives the bits back, followed by fewer than eight zero bits. */
  lemma {:induction false} UnpackPack(b: seq<bool>)
    ensures Unpack(Pack(b)) == b + Zeros(8 * ((|b| + 7) / 8) - |b|)
    decreases |b|
  {
    if b == [] {
    } else if |b| < 8 {
      var padded := b + Zeros(8 - |b|);
      ToFrom(padded);
      assert Pack(b)[1..] == [];
    } else {
      ToFrom(b[..8]);
      UnpackPack(b[8..]);
      assert Pack(b)[1..] == Pack(b[8..]);
      assert b == b[..8] + b[8..];
    }
  }
}
