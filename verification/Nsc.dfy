/** The NSCodec plane coder as the C code runs it, on plane buffers written in place. */
module Nsc {
  import opened Basics
  import opened Bits
  import opened NscRle

  function EncodedAfter(p: seq<byte>, r: (seq<byte>, nat)): (seq<byte>, nat) {
    (p + r.0, r.1)
  }

  /** One turn of the encoder's loop. */
  lemma EncodeTurn(plane: seq<byte>, n: uint32, i: nat, run: uint32, size: nat, before: seq<byte>)
    requires 4 < n - i && n <= |plane| && 1 <= run <= i + 1 && size < Limit(n)
    ensures EncodedAfter(before, EncodeFrom(plane, n, i, run, size)) ==
            if n - i > 5 && plane[i] == plane[i + 1]
            then EncodedAfter(before, EncodeFrom(plane, n, i + 1, run + 1, size))
            else
              var item := Item(plane[i], run);
              EncodedAfter(before + item, EncodeFrom(plane, n, i + 1, 1, size + |item|))
  {
    hide Item;
    if !(n - i > 5 && plane[i] == plane[i + 1]) {
      var item := Item(plane[i], run);
      var rest := EncodeFrom(plane, n, i + 1, 1, size + |item|).0;
      assert before + (item + rest) == before + item + rest;
    }
  }

  lemma EncodeEnd(plane: seq<byte>, n: uint32, i: nat, run: uint32, size: nat)
    requires n <= |plane| && i + 4 <= |plane| && i <= n && 1 <= run <= i + 1 && (n - i <= 4 || size >= Limit(n))
    ensures EncodeFrom(plane, n, i, run, size) == (if size < Limit(n) then plane[i..i + 4] else [], size + 4)
  {
  }

  /** The three ways to write a run. */
  method WriteItem(out: array<byte>, o: nat, value: byte, runlength: uint32) returns (written: nat)
    requires runlength >= 1 && o + 7 <= out.Length
    modifies out
    ensures written == |Item(value, runlength)|
    ensures out[..o + written] == old(out[..o]) + Item(value, runlength)
  {
    if runlength == 1 {
      out[o] := value;
      written := 1;
    } else if runlength < 256 {
      out[o], out[o + 1], out[o + 2] := value, value, runlength - 2;
      written := 3;
    } else {
      out[o], out[o + 1], out[o + 2] := value, value, 0xFF;
      out[o + 3] := runlength % 0x100;
      out[o + 4] := runlength / 0x100 % 0x100;
      out[o + 5] := runlength / 0x1_0000 % 0x100;
      out[o + 6] := runlength / 0x100_0000;
      written := 7;
    }
  }

  /** nsc_rle_encode. The output pointer advances with planeSize. */
  method RleEncode(plane: array<byte>, out: array<byte>, originalSize: uint32) returns (planeSize: nat)
    requires plane != out && originalSize <= plane.Length && 4 <= plane.Length && originalSize + 4 <= out.Length
    modifies out
    ensures planeSize == Encode(plane[..], originalSize).1
    ensures |Encode(plane[..], originalSize).0| <= out.Length
    ensures out[..|Encode(plane[..], originalSize).0|] == Encode(plane[..], originalSize).0
  {
    hide EncodeFrom, Item;
    ghost var p := plane[..];
    ghost var goal := Encode(p, originalSize);
    var i: nat, left: nat, runlength: uint32 := 0, originalSize, 1;
    planeSize := 0;
    assert [] + goal.0 == goal.0;
    while left > 4 && planeSize < Limit(originalSize)
      invariant left == originalSize - i && (originalSize > 4 ==> left >= 4)
      invariant originalSize <= 4 ==> i == planeSize == 0
      invariant 1 <= runlength <= i + 1 && planeSize <= out.Length && p == plane[..]
      invariant goal == EncodedAfter(out[..planeSize], EncodeFrom(p, originalSize, i, runlength, planeSize))
    {
      EncodeTurn(p, originalSize, i, runlength, planeSize, out[..planeSize]);
      if left > 5 && plane[i] == plane[i + 1] {
        runlength := runlength + 1;
      } else {
        var written := WriteItem(out, planeSize, plane[i], runlength);
        runlength := 1;
        planeSize := planeSize + written;
      }
      i, left := i + 1, left - 1;
    }
    EncodeEnd(p, originalSize, i, runlength, planeSize);
    assert out[..planeSize] + [] == out[..planeSize];
    ghost var before := out[..planeSize];
    if planeSize < Limit(originalSize) {
      forall k | 0 <= k < 4 { out[planeSize + k] := plane[i + k]; }
      assert out[..planeSize + 4] == before + p[i..i + 4];
    }
    planeSize := planeSize + 4;
    assert plane[..] == p && out[..|goal.0|] == goal.0;
  }

  /** One turn of the decoder's loop on a stream it does not run off. */
  lemma DecodeTurn(b: seq<byte>, left: nat)
    requires left > 4 && Decode(b, left).Some?
    ensures b != []
    ensures left == 5 || (|b| >= 2 && b[0] != b[1]) ==>
      Decode(b[1..], left - 1).Some?
          && Decode(b, left).value == ([b[0]] + Decode(b[1..], left - 1).value.0, Decode(b[1..], left - 1).value.1)
    ensures left != 5 ==> |b| >= 2
    ensures left != 5 && b[0] == b[1] ==>
      && RunAt(b).Some?
      && var (len, used) := RunAt(b).value;
         && len <= left && Decode(b[used..], left - len).Some?
         && var (plane, rest) := Decode(b[used..], left - len).value;
            Decode(b, left).value == (Repeat(b[0], len) + plane, rest)
  {
    hide RunAt;
  }

  lemma DecodeEnd(b: seq<byte>, left: nat)
    requires left <= 4 && Decode(b, left).Some?
    ensures |b| >= 4 && Decode(b, left).value == (b[..left], b[4..])
  {
  }

  lemma Onward(goal: seq<byte>, o: nat, x: seq<byte>, t: seq<byte>)
    requires o <= |goal| && goal[o..] == x + t
    ensures o + |x| <= |goal| && goal[o + |x|..] == t && goal[..o + |x|] == goal[..o] + x
  {
    assert |goal[o..]| == |x| + |t|;
    assert goal == goal[..o] + goal[o..];
  }

  /** FillMemory. */
  method Fill(out: array<byte>, at: nat, value: byte, len: nat)
    requires at + len <= out.Length
    modifies out
    ensures out[..at + len] == old(out[..at]) + Repeat(value, len)
  {
    forall k | at <= k < at + len { out[k] := value; }
  }

  /** The length of the run whose value stands at p, and where the input goes on. */
  method ReadRun(src: seq<byte>, p: nat) returns (len: nat, at: nat)
    requires p + 2 <= |src| && src[p] == src[p + 1] && RunAt(src[p..]).Some?
    ensures p < at <= |src| && RunAt(src[p..]).value == (len, at - p)
  {
    hide RunAt, FromLittleEndian;
    RunBytes(src, p);
    if src[p + 2] < 0xFF {
      len, at := src[p + 2] as int + 2, p + 3;
    } else {
      len, at := FromLittleEndian(src[p + 3..p + 7]), p + 7;
    }
  }

  /** One turn of the loop of nsc_rle_decode. */
  method DecodeItem(src: seq<byte>, p0: nat, out: array<byte>, o0: nat, left0: nat, ghost goal: seq<byte>,
      ghost rest: seq<byte>)
      returns (p: nat, o: nat, left: nat)
    requires left0 > 4 && o0 + left0 <= out.Length && p0 <= |src| && o0 <= |goal|
    requires Decode(src[p0..], left0) == Some((goal[o0..], rest)) && out[..o0] == goal[..o0]
    modifies out
    ensures p0 < p <= |src| && o + left == o0 + left0 && o <= |goal|
    ensures Decode(src[p..], left) == Some((goal[o..], rest)) && out[..o] == goal[..o]
  {
    hide Decode, RunAt, Repeat;
    DecodeTurn(src[p0..], left0);
    var value := src[p0];
    if left0 == 5 || value != src[p0 + 1] {
      Onward(goal, o0, [value], Decode(src[p0..][1..], left0 - 1).value.0);
      out[o0] := value;
      p, o, left := p0 + 1, o0 + 1, left0 - 1;
    } else {
      var len, at := ReadRun(src, p0);
      Onward(goal, o0, Repeat(value, len), Decode(src[p0..][at - p0..], left0 - len).value.0);
      Fill(out, o0, value, len);
      assert src[p0..][at - p0..] == src[at..];
      p, o, left := at, o0 + len, left0 - len;
    }
  }

  /** nsc_rle_decode on a stream it does not run off. */
  method RleDecode(src: seq<byte>, out: array<byte>, originalSize: nat) returns (used: nat)
    requires Decode(src, originalSize).Some? && originalSize + 4 <= out.Length
    modifies out
    ensures out[..originalSize] == Decode(src, originalSize).value.0
    ensures used <= |src| && src[used..] == Decode(src, originalSize).value.1
  {
    hide Decode, RunAt, Repeat;
    ghost var (goal, rest) := Decode(src, originalSize).value;
    var p: nat, left: nat, o: nat := 0, originalSize, 0;
    assert src[0..] == src && [] + goal == goal;
    while left > 4
      invariant o + left == originalSize && p <= |src|
      invariant Decode(src[p..], left) == Some((goal[o..], rest)) && out[..o] == goal[..o]
      decreases |src| - p
    {
      p, o, left := DecodeItem(src, p, out, o, left, goal, rest);
    }
    DecodeEnd(src[p..], left);
    forall k | 0 <= k < 4 { out[o + k] := src[p + k]; }
    used := p + 4;
  }

  lemma RunBytes(src: seq<byte>, p: nat)
    requires p + 2 <= |src| && src[p] == src[p + 1] && RunAt(src[p..]).Some?
    ensures p + 3 <= |src|
    ensures src[p + 2] < 0xFF ==> RunAt(src[p..]).value == (src[p + 2] as int + 2, 3)
    ensures src[p + 2] == 0xFF ==> p + 7 <= |src| && RunAt(src[p..]).value == (FromLittleEndian(src[p + 3..p + 7]), 7)
  {
    if src[p + 2] == 0xFF { assert src[p..][3..7] == src[p + 3..p + 7]; }
  }

  /** The plane buffers and byte counts of NSC_CONTEXT. */
  class NscContext {
    const planeBuffers: seq<array<byte>>
    const planeByteCount: array<nat>
    var orgByteCount: seq<uint32>

    /** Four planes and a scratch buffer, all padded beyond the largest plane. */
    ghost predicate Valid()
      reads this
    {
      && |planeBuffers| == 5 && planeByteCount.Length == 4 && |orgByteCount| == 4
      && (forall i, j :: 0 <= i < j < 5 ==> planeBuffers[i] != planeBuffers[j])
      && (forall i :: 0 <= i < 5 ==> (planeBuffers[i] as object) != (planeByteCount as object))
      && (forall i, j :: 0 <= i < 4 && 0 <= j < 5 ==> orgByteCount[i] + 4 <= planeBuffers[j].Length)
    }

    /** A context around its buffers. */
    constructor (buffers: seq<array<byte>>, counts: seq<uint32>)
      requires |buffers| == 5 && |counts| == 4 && forall i, j :: 0 <= i < j < 5 ==> buffers[i] != buffers[j]
      requires forall i, j :: 0 <= i < 4 && 0 <= j < 5 ==> counts[i] + 4 <= buffers[j].Length
      ensures Valid() && planeBuffers == buffers && orgByteCount == counts && fresh(planeByteCount)
    {
      planeBuffers, orgByteCount := buffers, counts;
      planeByteCount := new nat[4](_ => 0);
    }

    ghost function Planes(): (p: seq<seq<byte>>)
      reads this, planeBuffers
      requires Valid()
      ensures Buffers(p, orgByteCount)
    {
      assert forall i :: 0 <= i < 4 ==> orgByteCount[i] + 4 <= planeBuffers[i].Length;
      [planeBuffers[0][..], planeBuffers[1][..], planeBuffers[2][..], planeBuffers[3][..]]
    }

    /** nsc_rle_compress_data: each plane buffer ends up starting with its compressed plane. */
    method CompressData()
      requires Valid()
      modifies planeBuffers, planeByteCount
      ensures Valid() && planeByteCount[..] == Sizes(old(Planes()), orgByteCount)
      ensures forall i :: 0 <= i < 4 ==> Starts(planeBuffers[i], CompressPlane(old(Planes())[i], orgByteCount[i]))
    {
      hide CompressPlane;
      ghost var planes := Planes();
      var i := 0;
      while i < 4
        invariant 0 <= i <= 4
        invariant forall k :: 0 <= k < i ==> planeByteCount[k] == |CompressPlane(planes[k], orgByteCount[k])|
        invariant forall k :: 0 <= k < i ==> Starts(planeBuffers[k], CompressPlane(planes[k], orgByteCount[k]))
        invariant forall k :: i <= k < 4 ==> planeBuffers[k][..] == planes[k]
      {
        var planeSize := CompressOne(planeBuffers[i], planeBuffers[4], orgByteCount[i]);
        planeByteCount[i] := planeSize;
        i := i + 1;
      }
    }

    /** nsc_rle_decompress_data on planes it does not run off. */
    method DecompressData(planes: seq<byte>)
      requires Valid() && DecompressFrom(planes, planeByteCount[..], orgByteCount, 0).Some?
      modifies planeBuffers
      ensures Valid()
      ensures forall i :: 0 <= i < 4 ==>
        Starts(planeBuffers[i], DecompressFrom(planes, planeByteCount[..], orgByteCount, 0).value[i])
    {
      hide DecompressPlane, DecompressFrom;
      ghost var sizes := planeByteCount[..];
      ghost var goal := DecompressFrom(planes, sizes, orgByteCount, 0).value;
      var i, rle := 0, 0;
      assert planes[0..] == planes && goal[0..] == goal;
      while i < 4
        invariant 0 <= i <= 4 && 0 <= rle <= |planes| && planeByteCount[..] == sizes
        invariant DecompressFrom(planes[rle..], sizes, orgByteCount, i) == Some(goal[i..])
        invariant forall k :: 0 <= k < i ==> Starts(planeBuffers[k], goal[k])
      {
        NextPlane(planes[rle..], sizes, orgByteCount, i);
        DecompressOne(planes[rle..], planeByteCount[i], planeBuffers[i], orgByteCount[i]);
        assert planes[rle..][sizes[i]..] == planes[rle + sizes[i]..];
        rle := rle + planeByteCount[i];
        i := i + 1;
      }
    }
  }

  ghost predicate Starts(a: array<byte>, p: seq<byte>)
    reads a
  {
    |p| <= a.Length && a[..|p|] == p
  }

  lemma NextPlane(b: seq<byte>, sizes: seq<nat>, ns: seq<uint32>, i: nat)
    requires |sizes| == |ns| && i < |ns| && DecompressFrom(b, sizes, ns, i).Some?
    ensures sizes[i] <= |b| && DecompressPlane(b, sizes[i], ns[i]).Some?
    ensures DecompressFrom(b, sizes, ns, i).value[0] == DecompressPlane(b, sizes[i], ns[i]).value
    ensures DecompressFrom(b[sizes[i]..], sizes, ns, i + 1) == Some(DecompressFrom(b, sizes, ns, i).value[1..])
  {
    hide DecompressPlane;
    var plane := DecompressPlane(b, sizes[i], ns[i]).value;
    var planes := DecompressFrom(b[sizes[i]..], sizes, ns, i + 1).value;
    assert ([plane] + planes)[1..] == planes;
  }

  /** One turn of nsc_rle_compress_data. */
  method CompressOne(plane: array<byte>, scratch: array<byte>, originalSize: uint32) returns (planeSize: nat)
    requires plane != scratch && originalSize + 4 <= plane.Length && originalSize + 4 <= scratch.Length
    modifies plane, scratch
    ensures planeSize == |CompressPlane(old(plane[..]), originalSize)|
    ensures Starts(plane, CompressPlane(old(plane[..]), originalSize))
  {
    hide Encode;
    ghost var was := plane[..];
    if originalSize == 0 {
      planeSize := 0;
    } else {
      planeSize := RleEncode(plane, scratch, originalSize);
      if planeSize < originalSize {
        RleRoundTrip(was, originalSize, []);
        forall k | 0 <= k < planeSize { plane[k] := scratch[k]; }
        assert plane[..planeSize] == scratch[..planeSize];
      } else {
        planeSize := originalSize;
      }
    }
  }

  /** One turn of nsc_rle_decompress_data. */
  method DecompressOne(rle: seq<byte>, planeSize: nat, plane: array<byte>, originalSize: uint32)
    requires originalSize + 4 <= plane.Length && DecompressPlane(rle, planeSize, originalSize).Some?
    modifies plane
    ensures Starts(plane, DecompressPlane(rle, planeSize, originalSize).value)
  {
    hide Decode;
    if planeSize == 0 {
      Fill(plane, 0, 0xFF, originalSize);
      assert plane[..originalSize] == Repeat(0xFF, originalSize);
    } else if planeSize < originalSize {
      var used := RleDecode(rle, plane, originalSize);
    } else {
      forall k | 0 <= k < originalSize { plane[k] := rle[k]; }
      assert plane[..originalSize] == rle[..originalSize];
    }
  }
}
