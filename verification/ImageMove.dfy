/** Moving a rectangle inside one image buffer (freerdp_image_move, libfreerdp/codec/color.c): the
    order of the row copies never reads a byte that an earlier one has overwritten. */
module ImageMove {
  import opened Basics
  import opened Bits

  /** The parameters of a move, with the step in bytes. */
  datatype Move = Move(step: nat, bpp: nat, xDst: nat, yDst: nat, width: nat, height: nat, xSrc: nat, ySrc: nat) {
    /** Bytes in a row of the rectangle. */
    function RowBytes(): nat {
      width * bpp
    }

    /** Offset of row k of the source rectangle. */
    function Src(k: int): int {
      (ySrc + k) * step + xSrc * bpp
    }

    /** Offset of row k of the destination rectangle. */
    function Dst(k: int): int {
      (yDst + k) * step + xDst * bpp
    }

    predicate Overlap() {
      xDst + width > xSrc && xDst < xSrc + width && yDst + height > ySrc && yDst < ySrc + height
    }

    /** Both rectangles lie inside the stride and end inside the buffer. */
    predicate Inside(length: nat) {
      && bpp > 0 && xSrc * bpp + RowBytes() <= step && xDst * bpp + RowBytes() <= step
      && (height > 0 ==> Src(height - 1) + RowBytes() <= length && Dst(height - 1) + RowBytes() <= length)
    }
  }

  /** A row of pixels at column a * bpp of row r, and one of a later row, do not meet. */
  lemma RowsApart(r: int, q: int, step: nat, a: nat, b: nat, n: nat)
    requires r < q && a + n <= step
    ensures r * step + a + n <= q * step + b
  {
    MulMono(r + 1, q, step);
    Distribute(r, 1, step);
  }

  lemma RowInside(r: int, h: nat, y: nat, step: nat, a: nat, n: nat, length: nat)
    requires 0 <= r < h && (y + h - 1) * step + a + n <= length
    ensures 0 <= (y + r) * step + a && (y + r) * step + a + n <= length
  {
    MulMono(0, y + r, step);
    MulMono(y + r, y + h - 1, step);
  }

  lemma InBuffer(m: Move, k: int, length: nat)
    requires m.Inside(length) && 0 <= k < m.height
    ensures 0 <= m.Src(k) && m.Src(k) + m.RowBytes() <= length
    ensures 0 <= m.Dst(k) && m.Dst(k) + m.RowBytes() <= length
  {
    assert m.ySrc + (m.height - 1) == m.ySrc + m.height - 1 && m.yDst + (m.height - 1) == m.yDst + m.height - 1;
    RowInside(k, m.height, m.ySrc, m.step, m.xSrc * m.bpp, m.RowBytes(), length);
    RowInside(k, m.height, m.yDst, m.step, m.xDst * m.bpp, m.RowBytes(), length);
  }

  predicate Apart(a: int, b: int, n: nat) {
    a + n <= b || b + n <= a
  }

  /** Rows k and r of the destination never meet. */
  lemma DstRowsApart(m: Move, k: int, r: int)
    requires m.xDst * m.bpp + m.RowBytes() <= m.step && k != r
    ensures Apart(m.Dst(k), m.Dst(r), m.RowBytes())
  {
    if k < r {
      RowsApart(m.yDst + k, m.yDst + r, m.step, m.xDst * m.bpp, m.xDst * m.bpp, m.RowBytes());
    } else {
      RowsApart(m.yDst + r, m.yDst + k, m.step, m.xDst * m.bpp, m.xDst * m.bpp, m.RowBytes());
    }
  }

  /** Source row k is out of the way of destination row r when they are different rows of the image,
      or when the rectangles do not overlap. */
  lemma SrcDstApart(m: Move, k: int, r: int)
    requires m.xDst * m.bpp + m.RowBytes() <= m.step && m.xSrc * m.bpp + m.RowBytes() <= m.step
    requires 0 <= k < m.height && 0 <= r < m.height && (m.ySrc + k != m.yDst + r || !m.Overlap())
    ensures Apart(m.Src(k), m.Dst(r), m.RowBytes())
  {
    var a, b, n := m.xSrc * m.bpp, m.xDst * m.bpp, m.RowBytes();
    if m.ySrc + k < m.yDst + r {
      RowsApart(m.ySrc + k, m.yDst + r, m.step, a, b, n);
    } else if m.ySrc + k > m.yDst + r {
      RowsApart(m.yDst + r, m.ySrc + k, m.step, b, a, n);
    } else if m.xDst + m.width <= m.xSrc {
      MulMono(m.xDst + m.width, m.xSrc, m.bpp);
      Distribute(m.xDst, m.width, m.bpp);
    } else {
      MulMono(m.xSrc + m.width, m.xDst, m.bpp);
      Distribute(m.xSrc, m.width, m.bpp);
    }
  }

  /** Rows lo up to hi have been moved and every byte outside them is as it was. */
  ghost predicate Moved(image: seq<byte>, was: seq<byte>, m: Move, lo: int, hi: int) {
    && |image| == |was| && m.Inside(|was|) && 0 <= lo <= hi <= m.height
    && (forall k :: lo <= k < hi ==> RowIs(image, m.Dst(k), was, m.Src(k), m.RowBytes()))
    && (forall j :: 0 <= j < |image| && Outside(j, m, lo, hi) ==> image[j] == was[j])
  }

  /** n bytes at `at` equal the n old bytes at `from`. */
  ghost predicate RowIs(image: seq<byte>, at: int, was: seq<byte>, from: int, n: nat) {
    && 0 <= at && at + n <= |image| && 0 <= from && from + n <= |was|
    && image[at..at + n] == was[from..from + n]
  }

  /** Byte j is in none of the destination rows lo up to hi. */
  ghost predicate Outside(j: int, m: Move, lo: int, hi: int) {
    forall k :: lo <= k < hi ==> !(m.Dst(k) <= j < m.Dst(k) + m.RowBytes())
  }

  /** Copying row k on top of rows lo up to hi, from bytes that no earlier copy has touched. */
  lemma RowMoved(before: seq<byte>, after: seq<byte>, was: seq<byte>, m: Move, lo: int, hi: int, k: int)
    requires Moved(before, was, m, lo, hi) && 0 <= k < m.height && (k == hi || k == lo - 1)
    requires |after| == |before| && RowIs(after, m.Dst(k), before, m.Src(k), m.RowBytes())
    requires forall j :: 0 <= j < |after| && !(m.Dst(k) <= j < m.Dst(k) + m.RowBytes()) ==> after[j] == before[j]
    requires forall r :: lo <= r < hi ==> Apart(m.Src(k), m.Dst(r), m.RowBytes())
    ensures Moved(after, was, m, if k < lo then k else lo, if k < lo then hi else k + 1)
  {
    hide Move.Dst, Move.Src, Move.RowBytes, Outside, RowIs, Apart;
    InBuffer(m, k, |was|);
    NewRow(before, after, was, m, lo, hi, k);
    forall r | lo <= r < hi
      ensures RowIs(after, m.Dst(r), was, m.Src(r), m.RowBytes())
    {
      DstRowsApart(m, k, r);
      OldRow(before, after, m.Dst(r), was, m.Src(r), m.RowBytes(), m.Dst(k));
    }
    forall j | 0 <= j < |after| && Outside(j, m, if k < lo then k else lo, if k < lo then hi else k + 1)
      ensures after[j] == was[j]
    {
      OutsideMore(j, m, lo, hi, k);
    }
  }

  lemma OutsideMore(j: int, m: Move, lo: int, hi: int, k: int)
    requires lo <= hi && (k == hi || k == lo - 1)
    requires Outside(j, m, if k < lo then k else lo, if k < lo then hi else k + 1)
    ensures Outside(j, m, lo, hi) && !(m.Dst(k) <= j < m.Dst(k) + m.RowBytes())
  {
    hide Move.Dst, Move.RowBytes;
  }

  /** The bytes copied are the old ones. */
  lemma NewRow(before: seq<byte>, after: seq<byte>, was: seq<byte>, m: Move, lo: int, hi: int, k: int)
    requires Moved(before, was, m, lo, hi) && 0 <= m.Src(k) && m.Src(k) + m.RowBytes() <= |was|
    requires |after| == |before| && RowIs(after, m.Dst(k), before, m.Src(k), m.RowBytes())
    requires forall r :: lo <= r < hi ==> Apart(m.Src(k), m.Dst(r), m.RowBytes())
    ensures RowIs(after, m.Dst(k), was, m.Src(k), m.RowBytes())
  {
    hide Move.Dst, Move.Src, Move.RowBytes;
    forall j | m.Src(k) <= j < m.Src(k) + m.RowBytes()
      ensures before[j] == was[j]
    {
      assert Outside(j, m, lo, hi);
    }
    assert before[m.Src(k)..m.Src(k) + m.RowBytes()] == was[m.Src(k)..m.Src(k) + m.RowBytes()];
  }

  /** A row that the copy does not touch stays. */
  lemma OldRow(before: seq<byte>, after: seq<byte>, at: int, was: seq<byte>, from: int, n: nat, dst: int)
    requires RowIs(before, at, was, from, n) && |after| == |before| && Apart(dst, at, n)
    requires forall j :: 0 <= j < |after| && !(dst <= j < dst + n) ==> after[j] == before[j]
    ensures RowIs(after, at, was, from, n)
  {
    assert after[at..at + n] == before[at..at + n];
  }

  /** CopyMemory: only on ranges that do not meet. */
  method CopyMemory(data: array<byte>, dst: nat, src: nat, n: nat)
    requires dst + n <= data.Length && src + n <= data.Length && Apart(src, dst, n)
    modifies data
    ensures RowIs(data[..], dst, old(data[..]), src, n)
    ensures forall j :: 0 <= j < data.Length && !(dst <= j < dst + n) ==> data[j] == old(data[j])
  {
    for k := 0 to n
      invariant forall j :: src <= j < src + n ==> data[j] == old(data[j])
      invariant data[dst..dst + k] == old(data[src..src + k])
      invariant forall j :: 0 <= j < data.Length && !(dst <= j < dst + k) ==> data[j] == old(data[j])
    {
      data[dst + k] := data[src + k];
    }
  }

  /** MoveMemory: the ranges may meet. */
  method MoveMemory(data: array<byte>, dst: nat, src: nat, n: nat)
    requires dst + n <= data.Length && src + n <= data.Length
    modifies data
    ensures RowIs(data[..], dst, old(data[..]), src, n)
    ensures forall j :: 0 <= j < data.Length && !(dst <= j < dst + n) ==> data[j] == old(data[j])
  {
    forall k | 0 <= k < n {
      data[dst + k] := data[src + k];
    }
  }

  /** The upward loops: rows 0 to height - 1, copied with memmove when the rectangles share rows. */
  method MoveUp(data: array<byte>, m: Move)
    requires m.Inside(data.Length) && (!m.Overlap() || m.ySrc >= m.yDst)
    modifies data
    ensures Moved(data[..], old(data[..]), m, 0, m.height)
  {
    hide Move.Dst, Move.Src, Move.RowBytes, Move.Overlap, Moved, RowIs;
    ghost var was := data[..];
    var src, dst := m.Src(0), m.Dst(0);
    NothingMoved(was, m, 0);
    for y := 0 to m.height
      invariant Moved(data[..], was, m, 0, y) && src == m.Src(y) && dst == m.Dst(y)
    {
      ghost var before := data[..];
      InBuffer(m, y, data.Length);
      forall r | 0 <= r < y ensures Apart(m.Src(y), m.Dst(r), m.RowBytes()) {
        SrcDstApart(m, y, r);
      }
      if m.Overlap() && m.ySrc == m.yDst {
        MoveMemory(data, dst, src, m.RowBytes());
      } else {
        SrcDstApart(m, y, y);
        CopyMemory(data, dst, src, m.RowBytes());
      }
      RowMoved(before, data[..], was, m, 0, y, y);
      NextRow(m, y);
      src, dst := src + m.step, dst + m.step;
    }
  }

  /** The downward loop: rows height - 1 to 0. */
  method MoveDown(data: array<byte>, m: Move)
    requires m.Inside(data.Length) && m.ySrc < m.yDst
    modifies data
    ensures Moved(data[..], old(data[..]), m, 0, m.height)
  {
    hide Move.Dst, Move.Src, Move.RowBytes, Move.Overlap, Moved, RowIs;
    ghost var was := data[..];
    var src, dst := m.Src(m.height - 1), m.Dst(m.height - 1);
    NothingMoved(was, m, m.height);
    for y := 0 to m.height
      invariant Moved(data[..], was, m, m.height - y, m.height)
      invariant src == m.Src(m.height - 1 - y) && dst == m.Dst(m.height - 1 - y)
    {
      ghost var before := data[..];
      ghost var k := m.height - 1 - y;
      InBuffer(m, k, data.Length);
      forall r | k <= r < m.height ensures Apart(m.Src(k), m.Dst(r), m.RowBytes()) {
        SrcDstApart(m, k, r);
      }
      CopyMemory(data, dst, src, m.RowBytes());
      RowMoved(before, data[..], was, m, k + 1, m.height, k);
      NextRow(m, k - 1);
      src, dst := src - m.step, dst - m.step;
    }
  }

  lemma NothingMoved(was: seq<byte>, m: Move, at: nat)
    requires m.Inside(|was|) && at <= m.height
    ensures Moved(was, was, m, at, at)
  {
    forall j | 0 <= j < |was| ensures was[j] == was[j] {}
  }

  lemma NextRow(m: Move, k: int)
    ensures m.Src(k + 1) == m.Src(k) + m.step && m.Dst(k + 1) == m.Dst(k) + m.step
  {
    Distribute(m.ySrc + k, 1, m.step);
    Distribute(m.yDst + k, 1, m.step);
  }

  /** freerdp_image_move: the destination rectangle becomes what the source rectangle was, and every
      other byte stays, whichever way the rectangles overlap. */
  method ImageMove(data: array<byte>, bytesPerPixel: nat, nStep: int, nXDst: nat, nYDst: nat, nWidth: nat, nHeight: nat,
                   nXSrc: nat, nYSrc: nat) returns (status: int)
    requires StepMove(bytesPerPixel, nStep, nXDst, nYDst, nWidth, nHeight, nXSrc, nYSrc).Inside(data.Length)
    modifies data
    ensures status == 1
    ensures var m := StepMove(bytesPerPixel, nStep, nXDst, nYDst, nWidth, nHeight, nXSrc, nYSrc);
            Moved(data[..], old(data[..]), m, 0, m.height)
  {
    var step := if nStep < 0 then nWidth * bytesPerPixel else nStep;
    var m := Move(step, bytesPerPixel, nXDst, nYDst, nWidth, nHeight, nXSrc, nYSrc);
    if !m.Overlap() {
      MoveUp(data, m);
    } else if nYSrc < nYDst {
      MoveDown(data, m);
    } else {
      MoveUp(data, m);
    }
    status := 1;
  }

  /** A negative step stands for rows without padding. */
  function StepMove(bpp: nat, nStep: int, xDst: nat, yDst: nat, width: nat, height: nat, xSrc: nat, ySrc: nat): Move {
    Move(if nStep < 0 then width * bpp else nStep, bpp, xDst, yDst, width, height, xSrc, ySrc)
  }

  /** The same for one byte of one pixel. */
  lemma PixelMoved(image: seq<byte>, was: seq<byte>, m: Move, x: nat, y: nat, b: nat)
    requires Moved(image, was, m, 0, m.height) && x < m.width && y < m.height && b < m.bpp
    ensures var to := (m.yDst + y) * m.step + (m.xDst + x) * m.bpp + b;
            var from := (m.ySrc + y) * m.step + (m.xSrc + x) * m.bpp + b;
            0 <= to < |image| && 0 <= from < |was| && image[to] == was[from]
  {
    hide Moved;
    var i := x * m.bpp + b;
    MulMono(x + 1, m.width, m.bpp);
    Distribute(x, 1, m.bpp);
    Distribute(m.xDst, x, m.bpp);
    Distribute(m.xSrc, x, m.bpp);
    RowOf(image, was, m, y);
    assert image[m.Dst(y)..m.Dst(y) + m.RowBytes()][i] == was[m.Src(y)..m.Src(y) + m.RowBytes()][i];
  }

  lemma RowOf(image: seq<byte>, was: seq<byte>, m: Move, y: nat)
    requires Moved(image, was, m, 0, m.height) && y < m.height
    ensures RowIs(image, m.Dst(y), was, m.Src(y), m.RowBytes())
  {
  }
}
