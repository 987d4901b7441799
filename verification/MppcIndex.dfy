/** What the index of the match table distinguishes (libfreerdp/codec/mppc.c:34-67). */
module MppcIndex {
  import opened Bits
  import opened MppcEncoder

  lemma ScaleMod(x: nat, k: nat, m: nat)
    requires k > 0 && m > 0
    ensures k * m > 0 && (k * x) % (k * m) == k * (x % m)
  {
    var q, r := x / m, x % m;
    assert k * m > 0;
    assert k * x == k * m * q + k * r by { assert x == m * q + r; Regroup(k, m, q, r); }
    assert k * r < k * m;
    DivModUnique(k * x, k * m, q, k * r);
  }

  lemma Regroup(k: int, m: int, q: int, r: int)
    ensures k * (m * q + r) == k * m * q + k * r
  {
  }

  lemma FarApart1(d: nat)
    requires 1 <= d <= 255
    ensures 4096 <= d * 0x9CCF93 % 0x800_0000 <= 0x800_0000 - 4096
  {
  }

  lemma FarApart256(d: nat)
    requires 1 <= d <= 255
    ensures 16 <= d * 0x4_CF93 % 0x8_0000 <= 0x8_0000 - 16
  {
    var e, f := d / 5, d % 5;
    var q := 3 * e + (if f <= 1 then 0 else if f == 2 || (f == 3 && e < 29) then 1 else 2);
    var x := d * 0x4_CF93 - 0x8_0000 * q;
    assert x == 3551 * e + 315283 * f - 524288 * (q - 3 * e);
    DivModUnique(d * 0x4_CF93, 0x8_0000, q, x);
  }

  lemma FarApart65536(d: nat)
    requires 1 <= d <= 255
    ensures 1 <= d * 0x793 % 0x800
  {
    var m := d * 0x793 / 0x800;
    assert d == 0x800 * (1691 * m - 1601 * d) + 1691 * (d * 0x793 - 0x800 * m);
  }

  /** A multiple of the constant that stands at bit 0, 8 or 16 moves the sum by more than the twelve bits that
      are dropped. */
  lemma FarApart(d: nat, scale: nat)
    requires 1 <= d <= 255 && (scale == 1 || scale == 0x100 || scale == 0x1_0000)
    ensures 4096 <= d * 0x9CCF93 * scale % 0x800_0000 <= 0x800_0000 - 4096
  {
    if scale == 1 {
      FarApart1(d);
    } else if scale == 0x100 {
      FarApart256(d);
      ScaleMod(d * 0x9CCF93, 0x100, 0x8_0000);
      DivModUnique(d * 0x9CCF93, 0x8_0000, 19 * d + d * 0x4_CF93 / 0x8_0000, d * 0x4_CF93 % 0x8_0000);
    } else {
      FarApart65536(d);
      ScaleMod(d * 0x9CCF93, 0x1_0000, 0x800);
      DivModUnique(d * 0x9CCF93, 0x800, 5017 * d + d * 0x793 / 0x800, d * 0x793 % 0x800);
    }
  }

  /** Two sums that are that far apart have different indices. */
  lemma IndexMoves(s: nat, t: nat)
    requires 4096 <= t % 0x800_0000 <= 0x800_0000 - 4096
    ensures (s + t) / 0x1000 % 0x8000 != s / 0x1000 % 0x8000
  {
    var u, v := s / 0x1000, (s + t) / 0x1000;
    if v % 0x8000 == u % 0x8000 {
      var k := v / 0x8000 - u / 0x8000;
      var e := (s + t) % 0x1000 - s % 0x1000;
      assert t == 0x800_0000 * k + e;
      if e >= 0 { DivModUnique(t, 0x800_0000, k, e); } else { DivModUnique(t, 0x800_0000, k - 1, 0x800_0000 + e); }
    }
  }

  lemma SymbolMoves(s: nat, x: nat, y: nat, scale: nat)
    requires x <= 255 && y <= 255 && x != y && (scale == 1 || scale == 0x100 || scale == 0x1_0000)
    ensures (s + y * 0x9CCF93 * scale) / 0x1000 % 0x8000 != (s + x * 0x9CCF93 * scale) / 0x1000 % 0x8000
  {
    if x < y { SymbolRises(s, x, y, scale); } else { SymbolRises(s, y, x, scale); }
  }

  lemma SymbolRises(s: nat, low: nat, high: nat, scale: nat)
    requires low < high <= 255 && (scale == 1 || scale == 0x100 || scale == 0x1_0000)
    ensures (s + high * 0x9CCF93 * scale) / 0x1000 % 0x8000 != (s + low * 0x9CCF93 * scale) / 0x1000 % 0x8000
  {
    FarApart(high - low, scale);
    Rise(low, high, scale);
    IndexMoves(s + low * 0x9CCF93 * scale, (high - low) * 0x9CCF93 * scale);
  }

  lemma Rise(low: nat, high: nat, scale: nat)
    requires low < high && (scale == 1 || scale == 0x100 || scale == 0x1_0000)
    ensures low * 0x9CCF93 * scale + (high - low) * 0x9CCF93 * scale == high * 0x9CCF93 * scale
  {
  }

  lemma IndexOfSum(a: byte, b: byte, c: byte)
    ensures MatchIndex(a, b, c) ==
            (a * 0x9CCF93 * 1 + b * 0x9CCF93 * 0x100 + c * 0x9CCF93 * 0x1_0000) / 0x1000 % 0x8000
  {
  }

  lemma FirstApart(a: byte, b: byte, c: byte, other: byte)
    requires other != a
    ensures MatchIndex(other, b, c) != MatchIndex(a, b, c)
  {
    hide MatchIndex;
    IndexOfSum(a, b, c);
    IndexOfSum(other, b, c);
    SymbolMoves(b * 0x9CCF93 * 0x100 + c * 0x9CCF93 * 0x1_0000, a, other, 1);
  }

  lemma SecondApart(a: byte, b: byte, c: byte, other: byte)
    requires other != b
    ensures MatchIndex(a, other, c) != MatchIndex(a, b, c)
  {
    hide MatchIndex;
    IndexOfSum(a, b, c);
    IndexOfSum(a, other, c);
    SymbolMoves(a * 0x9CCF93 * 1 + c * 0x9CCF93 * 0x1_0000, b, other, 0x100);
  }

  lemma ThirdApart(a: byte, b: byte, c: byte, other: byte)
    requires other != c
    ensures MatchIndex(a, b, other) != MatchIndex(a, b, c)
  {
    hide MatchIndex;
    IndexOfSum(a, b, c);
    IndexOfSum(a, b, other);
    SymbolMoves(a * 0x9CCF93 * 1 + b * 0x9CCF93 * 0x100, c, other, 0x1_0000);
  }

  /** Two triples that differ in one symbol only have different indices. */
  lemma OneSymbolApart(a: byte, b: byte, c: byte, other: byte)
    ensures other != a ==> MatchIndex(other, b, c) != MatchIndex(a, b, c)
    ensures other != b ==> MatchIndex(a, other, c) != MatchIndex(a, b, c)
    ensures other != c ==> MatchIndex(a, b, other) != MatchIndex(a, b, c)
  {
    hide MatchIndex;
    if other != a { FirstApart(a, b, c, other); }
    if other != b { SecondApart(a, b, c, other); }
    if other != c { ThirdApart(a, b, c, other); }
  }
}
