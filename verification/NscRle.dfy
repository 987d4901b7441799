/** The run-length code of NSCodec planes (libfreerdp/codec/nsc_encode.c and nsc.c, section 2.2.2 of
    [MS-RDPNSC]). */
module NscRle {
  import opened Basics
  import opened Bits

  type uint32 = x: int | 0 <= x < 0x1_0000_0000

  // ----- writing

  /** `originalSize - 4` in 32 bits. */
  function Limit(n: uint32): uint32 {
    if n >= 4 then n - 4 else n - 4 + 0x1_0000_0000
  }

  /** A run length in four bytes, low byte first. */
  function LittleEndian(v: uint32): (b: seq<byte>)
    ensures |b| == 4
  {
    [v % 256, v / 0x100 % 256, v / 0x1_0000 % 256, v / 0x100_0000]
  }

  /** What a run of equal bytes is written as. */
  function Item(value: byte, run: uint32): (b: seq<byte>)
    requires run >= 1
    ensures 1 <= |b| <= 7 && b[0] == value
  {
    if run == 1 then [value]
    else if run < 256 then [value, value, run - 2]
    else [value, value, 0xFF] + LittleEndian(run)
  }

  /** nsc_rle_encode on the first n bytes of the plane buffer, at byte i, with `run` equal bytes
      pending and `size` bytes written: the bytes still to come and the size returned. */
  function EncodeFrom(plane: seq<byte>, n: uint32, i: nat, run: uint32, size: nat): (r: (seq<byte>, nat))
    requires n <= |plane| && i + 4 <= |plane| && i <= n && 1 <= run <= i + 1
    decreases n - i
  {
    if n - i > 4 && size < Limit(n) then
      if n - i > 5 && plane[i] == plane[i + 1] then EncodeFrom(plane, n, i + 1, run + 1, size)
      else
        var item := Item(plane[i], run);
        var (rest, total) := EncodeFrom(plane, n, i + 1, 1, size + |item|);
        (item + rest, total)
    else (if size < Limit(n) then plane[i..i + 4] else [], size + 4)
  }

  function Encode(plane: seq<byte>, n: uint32): (seq<byte>, nat)
    requires n <= |plane| && 4 <= |plane|
  {
    EncodeFrom(plane, n, 0, 1, 0)
  }

  // ----- reading

  function FromLittleEndian(b: seq<byte>): uint32
    requires |b| == 4
  {
    b[0] + 0x100 * (b[1] as int) + 0x1_0000 * (b[2] as int) + 0x100_0000 * (b[3] as int)
  }

  /** The run at the front of the input, if the byte there is repeated: its length and the bytes
      that stand for it. */
  function RunAt(b: seq<byte>): (r: Option<(nat, nat)>)
    requires |b| >= 2 && b[0] == b[1]
    ensures r.Some? ==> 3 <= r.value.1 <= |b|
  {
    if |b| < 3 then None
    else if b[2] < 0xFF then Some((b[2] as int + 2, 3))
    else if |b| < 7 then None
    else Some((FromLittleEndian(b[3..7]), 7))
  }

  /** nsc_rle_decode with `left` bytes to go: those bytes and the input after them, or None where the
      C code would leave its input or its plane. */
  function Decode(b: seq<byte>, left: nat): (r: Option<(seq<byte>, seq<byte>)>)
    ensures r.Some? ==> |r.value.0| == left && |r.value.1| <= |b|
    decreases |b|
  {
    if left <= 4 then
      if |b| < 4 then None else Some((b[..left], b[4..]))
    else if b == [] then None
    else if left == 5 then
      Literal(b[0], Decode(b[1..], left - 1))
    else if |b| < 2 then None
    else if b[0] != b[1] then
      Literal(b[0], Decode(b[1..], left - 1))
    else
      match RunAt(b)
      case None => None
      case Some((len, used)) =>
        if len > left then None
        else Prepend(Repeat(b[0], len), Decode(b[used..], left - len))
  }

  function Literal(v: byte, r: Option<(seq<byte>, seq<byte>)>): Option<(seq<byte>, seq<byte>)> {
    Prepend([v], r)
  }

  // ----- reading back

  lemma LittleEndianRoundTrip(v: uint32)
    ensures FromLittleEndian(LittleEndian(v)) == v
  {
    var a, b, c := v / 0x100, v / 0x1_0000, v / 0x100_0000;
    assert b == a / 256 && c == b / 256 && c < 256;
    assert v == 256 * a + v % 256 && a == 256 * b + a % 256 && b == 256 * c + b % 256;
  }

  lemma RunItem(value: byte, run: uint32, rest: seq<byte>)
    requires run >= 2
    ensures RunAt(Item(value, run) + rest) == Some((run as nat, |Item(value, run)|))
    ensures (Item(value, run) + rest)[|Item(value, run)|..] == rest
  {
    var b := Item(value, run) + rest;
    if run >= 256 {
      assert b[3..7] == LittleEndian(run);
      LittleEndianRoundTrip(run);
    }
  }

  /** The decoder takes an item as the run it stands for, provided a single byte is not followed by
      an equal one before the last literal. */
  lemma DecodeItem(value: byte, run: uint32, e: seq<byte>, left: nat)
    requires run >= 1 && left >= 5 && run + 4 <= left
    requires run == 1 && left > 5 ==> e != [] && e[0] != value
    requires Decode(e, left - run).Some?
    ensures Decode(Item(value, run) + e, left) == Prepend(Repeat(value, run), Decode(e, left - run))
  {
    hide RunAt, Item, Decode;
    var b := Item(value, run) + e;
    if run == 1 {
      SingleItem(value);
      assert b[1..] == e && Repeat(value, 1) == [value];
      DecodeLiteral(b, left);
    } else {
      RunItem(value, run, e);
      ItemTwice(value, run);
      assert b[0] == value && b[1] == value;
      DecodeRun(b, left);
    }
  }

  lemma SingleItem(value: byte)
    ensures Item(value, 1) == [value]
  {
  }

  lemma ItemTwice(value: byte, run: uint32)
    requires run >= 2
    ensures |Item(value, run)| >= 3 && Item(value, run)[1] == value
  {
  }

  lemma DecodeLiteral(b: seq<byte>, left: nat)
    requires left >= 5 && b != [] && (left > 5 ==> |b| >= 2 && b[0] != b[1])
    ensures Decode(b, left) == Prepend([b[0]], Decode(b[1..], left - 1))
  {
  }

  lemma DecodeRun(b: seq<byte>, left: nat)
    requires left > 5 && |b| >= 2 && b[0] == b[1] && RunAt(b).Some? && RunAt(b).value.0 <= left
    ensures var (len, used) := RunAt(b).value;
            Decode(b, left) == Prepend(Repeat(b[0], len), Decode(b[used..], left - len))
  {
  }

  /** Three bytes, of which two are equal and the third is below 0xFF, stand for a run of up to 256 bytes. */
  lemma RunFormat(v: byte, r: byte, e: seq<byte>, left: nat)
    requires left > 5 && r < 0xFF && r + 2 <= left
    ensures Decode([v, v, r] + e, left) == Prepend(Repeat(v, r + 2), Decode(e, left - (r + 2)))
  {
    hide Decode;
    assert ([v, v, r] + e)[3..] == e;
    DecodeRun([v, v, r] + e, left);
  }

  /** With 0xFF the length is in the four bytes that follow, low byte first. */
  lemma LongRunFormat(v: byte, a: byte, b: byte, c: byte, d: byte, e: seq<byte>, left: nat)
    requires left > 5
    requires a + 0x100 * (b as int) + 0x1_0000 * (c as int) + 0x100_0000 * (d as int) <= left
    ensures var len := a + 0x100 * (b as int) + 0x1_0000 * (c as int) + 0x100_0000 * (d as int);
            Decode([v, v, 0xFF, a, b, c, d] + e, left) == Prepend(Repeat(v, len), Decode(e, left - len))
  {
    hide Decode;
    var x := [v, v, 0xFF, a, b, c, d] + e;
    assert x[3..7] == [a, b, c, d] && x[7..] == e;
    DecodeRun(x, left);
  }

  /** The pending bytes of the encoder are equal, and none are pending in front of the tail. */
  predicate Pending(plane: seq<byte>, n: uint32, i: nat, run: uint32) {
    && 4 < n <= |plane| && i + 4 <= n && 1 <= run <= i + 1 && (run > 1 ==> i + 4 < n)
    && forall k :: i + 1 - run <= k <= i ==> plane[k] == plane[i]
  }

  lemma {:induction false} TotalAtLeast(plane: seq<byte>, n: uint32, i: nat, run: uint32, size: nat)
    requires Pending(plane, n, i, run)
    ensures EncodeFrom(plane, n, i, run, size).1 >= size + 4
    ensures EncodeFrom(plane, n, i, run, size).1 < n ==>
      size < n - 4 && size + |EncodeFrom(plane, n, i, run, size).0| == EncodeFrom(plane, n, i, run, size).1
    decreases n - i
  {
    if n - i > 4 && size < Limit(n) {
      if n - i > 5 && plane[i] == plane[i + 1] {
        TotalAtLeast(plane, n, i + 1, run + 1, size);
      } else {
        TotalAtLeast(plane, n, i + 1, 1, size + |Item(plane[i], run)|);
      }
    }
  }

  /** A complete encoding starts with the value of the pending run. */
  lemma {:induction false} FirstByte(plane: seq<byte>, n: uint32, i: nat, run: uint32, size: nat)
    requires Pending(plane, n, i, run) && i + 4 < n && EncodeFrom(plane, n, i, run, size).1 < n
    ensures var out := EncodeFrom(plane, n, i, run, size).0; out != [] && out[0] == plane[i]
    decreases n - i
  {
    TotalAtLeast(plane, n, i, run, size);
    if n - i > 5 && plane[i] == plane[i + 1] {
      FirstByte(plane, n, i + 1, run + 1, size);
    }
  }

  /** Decoding what the encoder still has to write gives the pending run and everything after it. */
  lemma {:induction false} DecodeFromPending(plane: seq<byte>, n: uint32, i: nat, run: uint32, size: nat,
                                             rest: seq<byte>)
    requires Pending(plane, n, i, run) && EncodeFrom(plane, n, i, run, size).1 < n
    ensures var start := i + 1 - run;
            Decode(EncodeFrom(plane, n, i, run, size).0 + rest, n - start) == Some((plane[start..n], rest))
    decreases n - i
  {
    hide Decode, Item;
    TotalAtLeast(plane, n, i, run, size);
    var out := EncodeFrom(plane, n, i, run, size).0;
    if n - i == 4 {
      assert (plane[i..n] + rest)[..4] == plane[i..n] && (plane[i..n] + rest)[4..] == rest;
      DecodeTail(plane[i..n] + rest);
    } else if n - i > 5 && plane[i] == plane[i + 1] {
      DecodeFromPending(plane, n, i + 1, run + 1, size, rest);
    } else {
      var item := Item(plane[i], run);
      var e := EncodeFrom(plane, n, i + 1, 1, size + |item|).0;
      DecodeFromPending(plane, n, i + 1, 1, size + |item|, rest);
      if n - i > 5 { FirstByte(plane, n, i + 1, 1, size + |item|); }
      assert (item + e) + rest == item + (e + rest);
      DecodeItem(plane[i], run, e + rest, n - (i + 1 - run));
      assert Repeat(plane[i], run) + plane[i + 1..n] == plane[i + 1 - run..n];
    }
  }

  lemma DecodeTail(b: seq<byte>)
    requires |b| >= 4
    ensures Decode(b, 4) == Some((b[..4], b[4..]))
  {
  }

  /** Whenever the encoder reports fewer bytes than the plane has, it has written exactly that many
      and the decoder turns them back into the plane, stopping right after them. */
  lemma RleRoundTrip(plane: seq<byte>, n: uint32, rest: seq<byte>)
    requires n <= |plane| && 4 <= |plane| && Encode(plane, n).1 < n
    ensures |Encode(plane, n).0| == Encode(plane, n).1
    ensures Decode(Encode(plane, n).0 + rest, n) == Some((plane[..n], rest))
  {
    hide Decode;
    assert n > 4;
    TotalAtLeast(plane, n, 0, 1, 0);
    DecodeFromPending(plane, n, 0, 1, 0, rest);
  }

  // ----- planes

  /** One turn of nsc_rle_compress_data: the first n bytes of a plane buffer as they are sent. */
  function CompressPlane(plane: seq<byte>, n: uint32): seq<byte>
    requires n <= |plane| && 4 <= |plane|
  {
    if n == 0 then []
    else if Encode(plane, n).1 < n then Encode(plane, n).0
    else plane[..n]
  }

  /** One turn of nsc_rle_decompress_data. */
  function DecompressPlane(b: seq<byte>, planeSize: nat, n: nat): (r: Option<seq<byte>>)
    ensures r.Some? ==> |r.value| == n
  {
    if planeSize == 0 then Some(Repeat(0xFF, n))
    else if planeSize < n then
      match Decode(b, n)
      case None => None
      case Some((plane, _)) => Some(plane)
    else if |b| < n then None
    else Some(b[..n])
  }

  /** A plane is never sent longer than it is, and reading its bytes gives it back, whether it was
      run-length encoded, sent as it is or empty. */
  lemma PlaneRoundTrip(plane: seq<byte>, n: uint32, rest: seq<byte>)
    requires n <= |plane| && 4 <= |plane|
    ensures |CompressPlane(plane, n)| <= n
    ensures DecompressPlane(CompressPlane(plane, n) + rest, |CompressPlane(plane, n)|, n) == Some(plane[..n])
  {
    hide Decode, Encode;
    if n > 0 {
      if Encode(plane, n).1 < n {
        RleRoundTrip(plane, n, rest);
        EncodedSome(plane, n);
      } else {
        assert (plane[..n] + rest)[..n] == plane[..n];
      }
    }
  }

  lemma EncodedSome(plane: seq<byte>, n: uint32)
    requires n <= |plane| && 4 <= |plane| && Encode(plane, n).1 < n
    ensures Encode(plane, n).1 >= 4
  {
    TotalAtLeast(plane, n, 0, 1, 0);
  }

  /** Every plane buffer holds its plane and the four bytes a tail copy reads. */
  predicate Buffers(planes: seq<seq<byte>>, ns: seq<uint32>) {
    |planes| == |ns| && forall i :: 0 <= i < |ns| ==> ns[i] <= |planes[i]| && 4 <= |planes[i]|
  }

  /** The planes of a message from the i-th on, one after the other. */
  function Message(planes: seq<seq<byte>>, ns: seq<uint32>, i: nat): seq<byte>
    requires Buffers(planes, ns) && i <= |ns|
    decreases |ns| - i
  {
    if i == |ns| then [] else CompressPlane(planes[i], ns[i]) + Message(planes, ns, i + 1)
  }

  function Sizes(planes: seq<seq<byte>>, ns: seq<uint32>): (r: seq<nat>)
    requires Buffers(planes, ns)
    ensures |r| == |ns|
  {
    seq(|ns|, i requires 0 <= i < |ns| => |CompressPlane(planes[i], ns[i])|)
  }

  /** nsc_rle_decompress_data from plane i on: after each plane the input advances by its size. */
  function DecompressFrom(b: seq<byte>, sizes: seq<nat>, ns: seq<uint32>, i: nat): (r: Option<seq<seq<byte>>>)
    requires |sizes| == |ns| && i <= |ns|
    ensures r.Some? ==> |r.value| == |ns| - i
    decreases |ns| - i
  {
    if i == |ns| then Some([])
    else if sizes[i] > |b| then None
    else
      match DecompressPlane(b, sizes[i], ns[i])
      case None => None
      case Some(plane) =>
        match DecompressFrom(b[sizes[i]..], sizes, ns, i + 1)
        case None => None
        case Some(planes) => Some([plane] + planes)
  }

  /** The planes themselves, from the i-th on. */
  function PlanesFrom(planes: seq<seq<byte>>, ns: seq<uint32>, i: nat): (r: seq<seq<byte>>)
    requires Buffers(planes, ns) && i <= |ns|
    ensures |r| == |ns| - i && forall k {:trigger r[k]} :: 0 <= k < |r| ==> r[k] == planes[i + k][..ns[i + k]]
    decreases |ns| - i
  {
    if i == |ns| then [] else [planes[i][..ns[i]]] + PlanesFrom(planes, ns, i + 1)
  }

  /** All planes of a message come back, whatever they hold. */
  lemma {:induction false} MessageRoundTrip(planes: seq<seq<byte>>, ns: seq<uint32>, i: nat)
    requires Buffers(planes, ns) && i <= |ns|
    ensures DecompressFrom(Message(planes, ns, i), Sizes(planes, ns), ns, i) == Some(PlanesFrom(planes, ns, i))
    decreases |ns| - i
  {
    hide CompressPlane, DecompressPlane;
    if i == |ns| {
    } else {
      var first, rest := CompressPlane(planes[i], ns[i]), Message(planes, ns, i + 1);
      PlaneRoundTrip(planes[i], ns[i], rest);
      assert (first + rest)[|first|..] == rest;
      MessageRoundTrip(planes, ns, i + 1);
    }
  }
}
