/** Shifted numbers and packed bytes, as bits. */
module BitPieces {
  import opened Bits

  // ----- pieces of a number

  /** `v >> n`. */
  function Shr(v: nat, n: nat): nat {
    if n == 0 then v else Shr(v / 2, n - 1)
  }

  lemma {:induction false} ShrSmall(v: nat, n: nat)
    requires v < Pow2(n)
    ensures Shr(v, n) == 0
  {
    if n > 0 { ShrSmall(v / 2, n - 1); }
  }

  lemma {:induction false} ToBitsSplit(v: nat, m: nat, n: nat)
    ensures ToBits(v, m + n) == ToBits(Shr(v, n), m) + ToBits(v, n)
  {
    hide ToBits, Shr;
    if n == 0 {
      LastBit(v, n);
    } else {
      ToBitsSplit(v / 2, m, n - 1);
      LastBit(v, n);
      LastBit(v, m + n);
      var high := ToBits(Shr(v, n), m);
      assert high + (ToBits(v / 2, n - 1) + [v % 2 == 1]) == (high + ToBits(v / 2, n - 1)) + [v % 2 == 1];
    }
  }

  lemma LastBit(v: nat, n: nat)
    ensures n == 0 ==> ToBits(v, n) == [] && Shr(v, n) == v
    ensures n > 0 ==> ToBits(v, n) == ToBits(v / 2, n - 1) + [v % 2 == 1] && Shr(v, n) == Shr(v / 2, n - 1)
  {
  }

  /** Bits lo up to lo + b of the n low bits of v. */
  lemma Piece(v: nat, n: nat, lo: nat, b: nat)
    requires lo + b <= n
    ensures ToBits(v, n)[lo..lo + b] == ToBits(Shr(v, n - lo - b), b)
  {
    hide ToBits, Pow2;
    var k := n - lo - b;
    ToBitsSplit(v, lo + b, k);
    ToBitsSplit(Shr(v, k), lo, b);
    assert ToBits(v, n)[lo..lo + b] == ToBits(Shr(v, k), lo + b)[lo..];
  }

  lemma {:induction false} ToBitsMod(v: nat, n: nat)
    ensures ToBits(v % Pow2(n), n) == ToBits(v, n)
  {
    FromTo(v, n);
    ToFrom(ToBits(v, n));
  }

  lemma {:induction false} ToBitsShifted(c: nat, b: nat, k: nat)
    ensures ToBits(c * Pow2(k), b + k) == ToBits(c, b) + Zeros(k)
  {
    if k == 0 {
    } else {
      var h := c * Pow2(k - 1);
      Double(c, Pow2(k - 1));
      assert c * Pow2(k) == 2 * h;
      ToBitsShifted(c, b, k - 1);
      assert ToBits(c, b) + Zeros(k - 1) + [false] == ToBits(c, b) + Zeros(k);
    }
  }

  lemma {:induction false} ToBitsSmall(c: nat, m: nat, n: nat)
    requires c < Pow2(n)
    ensures ToBits(c, m + n) == Zeros(m) + ToBits(c, n)
  {
    ToBitsSplit(c, m, n);
    ShrSmall(c, n);
    ToBitsZero(m);
  }

  lemma {:induction false} ToBitsZero(m: nat)
    ensures ToBits(0, m) == Zeros(m)
  {
    if m > 0 { ToBitsZero(m - 1); }
  }

  // ----- packed bytes

  lemma {:induction false} UnpackAt(bytes: seq<byte>, i: nat, k: nat)
    requires i < |bytes| && k < 8
    ensures Unpack(bytes)[8 * i + k] == ToBits(bytes[i], 8)[k]
    decreases i
  {
    if i > 0 { UnpackAt(bytes[1..], i - 1, k); }
  }

  lemma UnpackByte(bytes: seq<byte>, i: nat)
    requires i < |bytes|
    ensures Unpack(bytes)[8 * i..8 * i + 8] == ToBits(bytes[i], 8)
  {
    hide ToBits, Unpack;
    forall k | 0 <= k < 8
      ensures Unpack(bytes)[8 * i..8 * i + 8][k] == ToBits(bytes[i], 8)[k]
    {
      UnpackAt(bytes, i, k);
    }
  }
}
