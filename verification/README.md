# FreeRDP codecs, verified

A Dafny model of the parts of FreeRDP (`libfreerdp/codec`) that carry the hardest correctness
properties: banded screen regions, MPPC bulk compression, the planar bitmap codec, the two ADPCM audio
codecs, NSCodec run-length planes, the overlapping image move, the RemoteFX bit stream and winpr's
register-based bit stream.
`dafny verify dfyconfig.toml` checks everything.

Each component has two layers. The first describes what the C code computes as functions on values,
and proves what the code is for as lemmas about those functions. The second is the C code's own form:
classes whose fields and arrays are updated in place, loops with moving positions, buffers written
element by element. Every method of the second layer is proved equal to a function of the first, so the
lemmas are about the imperative code.

| Component | Values and theorems | Imperative form |
|---|---|---|
| Regions (`region.c`) | `RegionRects`, `RegionUnion`, `RegionSimplify`, `RegionTouching`, `RegionOps`, `RegionRuns`, `RegionCanonical` | `Region` (class `Region16`) |
| MPPC (`mppc.c`) | `MppcCode`, `MppcFormat`, `MppcHistory`, `MppcEncoder`, `MppcIndex`, `MppcChoice`, `MppcSession`, `MppcLimits`, `MppcRepeats`, `MppcExample` | `Mppc` (class `MppcContext`) |
| Its bit stream (`bitstream.h`) | `BitPieces`, `BitStream` | `BitStream` (class `WinprBitStream`) |
| Planar (`planar.c`) | `PlanarRle`, `PlanarPlane`, `PlanarSize`, `PlanarFormat` | `Planar`, `PlanarDecoder`, `PlanarCodec` |
| IMA ADPCM (`dsp.c`) | `ImaAdpcm`, `ImaSteps`, `ImaBuffer` | `ImaContext` (class `DspContext`) |
| Microsoft ADPCM (`dsp.c`) | `MsAdpcm`, `MsPredictors`, `MsStream`, `MsHeaders`, `MsBuffer` | `MsContext` (class `MsAdpcmContext`) |
| NSCodec planes (`nsc_encode.c`, `nsc.c`) | `NscRle`, `NscSize` | `Nsc` (class `NscContext`) |
| Image move (`color.c`) | `ImageMove` | `ImageMove` |
| RemoteFX bits (`rfx_bitstream.h`) | `BitPieces`, `RfxBits` | `RfxBits` (class `RfxBitStream`) |

`Basics`, `Bits` and `Runs` hold what several of them share, and `KnownAnswers` has small inputs of the audio and
plane codecs with the bytes and samples they give.

## Where the code and its documentation differ

- The header comment of `region.c` (lines 59-61) says that no two rectangles in a band touch. The merge
  joins an item that touches the new rectangle on its left (line 290) but not one that starts at its
  right edge (line 312). `RegionTouching.UnionCanTouch` gives an example and
  `RegionTouching.UnionKeepsGapsIff` says exactly when the rule survives. A region for which it holds is
  determined by its points (`RegionCanonical.RegionDetermined`). All other region results use what the code
  does keep: items of a band are ordered and do not overlap.
- `freerdp_bitmap_planar_compress_plane_rle` leaves its loop without an error when the buffer is exactly
  full with rows left (`planar.c` line 889). `PlanarPlane.CompressCanTruncate` gives an example,
  `PlanarPlane.CompressOutcome` says exactly when the result is the whole plane, and
  `PlanarPlane.CompressFits` gives a buffer size that always works.
- `planar_decompress_plane_rle` guards a row by comparing the distance to the pixel, in bytes, with a
  number of pixels (line 147). `PlanarDecoder.RowCanBeOverrun` gives a stream with which it leaves its
  row, `PlanarDecoder.ControlOutcome` says which control bytes do, and `PlanarDecoder.DecoderFinishesIff`
  says that on the streams its caller lets through (lines 430-475) it never does, also when it is given only
  the bytes the skip parser has counted (`PlanarDecoder.DecoderOnCounted`).
- `mppc_compress` takes packets of any size, but not all of them come back. `MppcLimits.SizesIff` gives the
  exact bounds: sessions of packets of low up to high bytes come back, from all states in which the two ends
  agree, iff no packet is empty and none is longer than the history of the level or as long as the array,
  which is at most 8192 bytes at level 0 and at most 65535 at level 1. Each bound has its input:
  - An empty packet: `SrcSize - 1` wraps in 32 bits (line 508), so the main loop does not stop at the end of
    the source (`MppcEncoder.StaysInsideIff`, `MppcLimits.EmptyLost`).
  - More than 8192 zeros at level 0, which the decompressor has no room for (`MppcLimits.LongZerosLost`).
  - 65536 zeros at level 1, followed by `MppcLimits.NextPacket`. The first packet comes back, but it leaves
    HistoryPtr behind the array, and the loop of line 571 then extends a match of the second packet over the
    first byte of MatchBuffer (`include/freerdp/codec/mppc.h` lines 34-35), which is zero on the other side
    (`MppcLimits.ZerosFill`, `MppcLimits.FirstTuple`, `MppcLimits.NextPacketLost`).

  `libfreerdp/core/bulk.c` (line 187) only compresses packets of 51 to 16383 bytes, and
  `libfreerdp/core/fastpath.c` (lines 947-948) cuts its packets to the history of the level.
- Both ADPCM encoders grow their buffer to half the size of the input when that is more than they have
  (`dsp.c` lines 348-358 and 603-613), which leaves block headers out. With small blocks the output does
  not fit. `ImaBuffer.EstimateFails` and `MsBuffer.MsEstimateFails` give the streams and the calls before
  them; `ImaBuffer.EstimateSufficesIff` (stereo, or blocks of at least 9 bytes) and
  `MsBuffer.MsEstimateSufficesIff` (mono blocks of 7 or at least 13 bytes, stereo blocks of 13, 14 or at
  least 25) say exactly which block sizes are safe.
- The Microsoft ADPCM decoder takes two data bytes of a stereo stream between header tests, the encoder
  writes one. `MsStream.OddBlockFails` shows that no decoder reads a single block with an odd number of
  data bytes (15 bytes, for a block size of 15), and `MsStream.StereoWorksIff` with
  `MsStream.EvenDataBytes` says which block sizes work: the even ones and 9, 11 and 13.
- A Microsoft ADPCM block header keeps 16 signed bits of the step. `MsAdpcm.MsHeaderRoundTrip` says which
  steps survive, `MsHeaders.FitsIffTame` that all steps of all streams do exactly with the predictors 0, 2,
  3 and 4, and `MsHeaders.HeaderCanLose` gives a stream that every decoder gets wrong, sent by a context
  that has decoded eight bytes with predictor 1.

## Conventions

- C integers are unbounded here where the code cannot leave their range, and written out where it
  matters (`% 256`, `% 0x1_0000`, the 32-bit `originalSize - 4`, division truncating towards zero).
- A function returns `None` where the C code reports an error, and also where, on input it does not
  check, it would leave its input or a table. The decoders are modelled on input for which it does not.
- 16- and 32-bit values that the code reads or writes through pointers are little-endian.
- `char` is an 8-bit signed number, as `freerdp_bitmap_planar_delta_encode_plane` needs.
- The values of `mppc.c` are sequences of bits, most significant first; `MppcContext` reads and writes its
  packets through the registers of `BitStream`.
- The MatchBuffer array of an MPPC context follows its HistoryBuffer. Both are read across that border where
  the C code does so; a context that decompresses has an empty MatchBuffer.
- In `mppc.c` the match test reads `MatchPtr[-1]` before it excludes `MatchPtr == HistoryBuffer`
  (lines 528-530); the model tests the exclusion first. The outcome is the same.
- The 256 entries of `MPPC_MATCH_TABLE` are `i * 0x9CCF93`, which is how the model writes them.

## Model

| member | source | states |
|---|---|---|
| RegionUnion.MergeBandColumns | libfreerdp/codec/region.c:253-340 | merging a rectangle into a band adds exactly the rectangle's columns: a column is covered afterwards iff it was covered or lies inside the rectangle |
| RegionUnion.MergeBandOrdered | libfreerdp/codec/region.c:253-340 | the merged items are again one band: one top and bottom, non-empty, ordered and disjoint |
| RegionUnion.SplitBandPoints | libfreerdp/codec/region.c:553-640 | a band and the up to three bands it is split into differ exactly by the part of the rectangle at the band's height |
| RegionUnion.UnionBandsPoints | libfreerdp/codec/region.c:540-667 | between the first top and the last bottom, the split bands and the inter-band pieces cover the source and the rectangle and nothing else |
| RegionUnion.UnionRawPoints | libfreerdp/codec/region.c:527-689 | with the pieces above and below, the uncoalesced union is banded and covers exactly the source and the rectangle |
| RegionUnion.SplitBandCost | libfreerdp/codec/region.c:597-667 | a band of k items yields at most 4k rectangles, its inter-band piece included |
| RegionUnion.UnionCost | libfreerdp/codec/region.c:518 | a union never produces more than the 4(n + 1) rectangles allocated for it |
| RegionSimplify.JoinPoints | libfreerdp/codec/region.c:431-470 | absorbing a matching band keeps the banded order and every point |
| RegionSimplify.SimplifyPoints | libfreerdp/codec/region.c:404-480 | coalescing keeps the banded order, the vertical span and exactly the points |
| RegionSimplify.SimplifyCoalesced | libfreerdp/codec/region.c:404-480 | afterwards no two vertically touching neighbour bands have the same columns |
| RegionSimplify.Simplify | libfreerdp/codec/region.c:404-480 | coalescing never adds rectangles |
| RegionOps.UnionIsUnion | libfreerdp/codec/region.c:482-689 | for every well-formed region and non-empty rectangle the union is well formed, extents included, and its points are exactly the union of the two point sets |
| RegionOps.IntersectIsIntersection | libfreerdp/codec/region.c:723-810 | the intersection is well formed and its points are exactly those of the source inside the rectangle |
| RegionOps.ClipAllPoints | libfreerdp/codec/region.c:768-795 | the scan that stops at the first item below the rectangle keeps the order and loses no point inside the rectangle |
| RegionOps.IntersectsIffCommonPoint | libfreerdp/codec/region.c:691-721 | the test is true exactly when region and rectangle share a point |
| RegionOps.TightIsPointBox | libfreerdp/codec/region.c:123-131 | extents are tight about the rectangles exactly when they are the smallest box around the points |
| RegionRuns.StepRepresents | libfreerdp/codec/region.c:172-230 | one clear, copy, union or intersect on regions that stand for given point sets keeps them well formed and standing for the sets the same operation gives; dst and src may be the same region |
| RegionRuns.RunRepresents | libfreerdp/codec/region.c:482-810 | the same over every sequence of calls on any number of regions |
| RegionRuns.RunFromInit | libfreerdp/codec/region.c:76-82 | every run from initialised regions computes the sets the abstract operations compute, in well-formed regions |
| RegionTouching.MergeGapped | libfreerdp/codec/region.c:286-325 | merging keeps the gaps of a band exactly when no item starts at the rectangle's right edge |
| RegionTouching.SplitBandGapped | libfreerdp/codec/region.c:553-640 | a split band keeps its gaps exactly when no item at the rectangle's height starts at its right edge |
| RegionTouching.SimplifyGapped | libfreerdp/codec/region.c:404-480 | coalescing neither opens nor closes a gap |
| RegionTouching.UnionKeepsGapsIff | libfreerdp/codec/region.c:59-61 | the documented no-touching rule survives a union iff no rectangle of the source that shares a scanline with the new one starts at its right edge |
| RegionTouching.UnionCanTouch | libfreerdp/codec/region.c:286-325 | a source and a rectangle for which the rule breaks |
| RegionCanonical.BandDetermined | libfreerdp/codec/region.c:59-61 | bands with gaps that have the same columns have the same items |
| RegionCanonical.PointsDetermine | libfreerdp/codec/region.c:30-72 | banded, coalesced lists without touching rectangles are a canonical form: two of them with the same points are the same list |
| RegionCanonical.RegionDetermined | libfreerdp/codec/region.c:30-72 | two such regions, extents included, are equal iff they cover the same points |
| RegionCanonical.UnionsCommute | libfreerdp/codec/region.c:482-689 | two unions give the same region in either order, unless one of them makes rectangles touch |
| RegionCanonical.UnionInside | libfreerdp/codec/region.c:482-689 | the union with a rectangle whose points are all there already leaves a region without touching rectangles as it is |
| RegionCanonical.IntersectStaysGapped | libfreerdp/codec/region.c:723-810 | an intersection never makes rectangles touch |
| RegionCanonical.IntersectionDetermined | libfreerdp/codec/region.c:723-810 | so, without touching rectangles, the intersection is the one well-formed region of the common points |
| Region.NextBand | libfreerdp/codec/region.c:342-355 | the end of the leading band and its item count |
| Region.BandMatch | libfreerdp/codec/region.c:357-381 | true exactly when the two bands have the same columns, item by item |
| Region.RectangleContainedInBand | libfreerdp/codec/region.c:383-402 | true exactly when the rectangle lies inside an item of the band |
| Region.CopyBandWithUnion | libfreerdp/codec/region.c:253-340 | the array receives the band restacked, with the rectangle merged when there is one, and the source position ends behind the band |
| Region.UnionInto | libfreerdp/codec/region.c:527-684 | the new items are the uncoalesced union, written within the allocated array |
| Region.SimplifyRects | libfreerdp/codec/region.c:404-480 | the in-place loop with its moves leaves the coalesced rectangles in front |
| Region.ClipInto | libfreerdp/codec/region.c:768-795 | the clipped items and the bounding box accumulated with them |
| Region.Region16.constructor | libfreerdp/codec/region.c:76-82 | an initialised region is empty |
| Region.Region16.Clear | libfreerdp/codec/region.c:172-183 | a cleared region is empty |
| Region.Region16.CopyFrom | libfreerdp/codec/region.c:201-230 | the copy equals the source, which keeps its value, also when both are one region |
| Region.Region16.SimplifyBands | libfreerdp/codec/region.c:404-480 | the region's rectangles become the coalesced ones, in place |
| Region.Region16.UnionRectFrom | libfreerdp/codec/region.c:482-689 | the region becomes the union: well formed, with the points of source and rectangle; the source may be the same region and otherwise keeps its value |
| Region.Region16.Intersects | libfreerdp/codec/region.c:691-721 | on a well-formed region, true exactly when a point is shared |
| Region.Region16.IntersectRectFrom | libfreerdp/codec/region.c:723-810 | the region becomes the intersection: well formed, with exactly the common points; the source may be the same region |
| MppcCode.OffsetRoundTrip | libfreerdp/codec/mppc.c:594-642 | every copy offset of either level is read back from its code, with the code's width, whatever follows it |
| MppcCode.LengthRoundTrip | libfreerdp/codec/mppc.c:645-733 | every match length of either level is read back from its code, with the code's width, whatever follows it |
| MppcCode.LiteralRoundTrip | libfreerdp/codec/mppc.c:546-558 | every literal is read back from its 8 or 9 bits |
| MppcCode.TokenRoundTrip | libfreerdp/codec/mppc.c:121-422 | the token code is self-delimiting: every token is read back and the rest of the stream is untouched |
| MppcFormat.LiteralForm | libfreerdp/codec/mppc.c:546-558 | a literal is its seven low bits behind 0, or behind 10 from 128 on |
| MppcFormat.OffsetForm | libfreerdp/codec/mppc.c:594-642 | a copy offset is counted from the start of its range (0, 64, 320, and 2368 at level 1), in 6, 8, 13 (11 and 16 at level 1) bits behind the ones and the zero that tell the range |
| MppcFormat.LengthForm | libfreerdp/codec/mppc.c:645-733 | a length from 2^k below 2^(k+1) is its k low bits behind k - 1 ones and a zero |
| MppcFormat.RefusedLength | libfreerdp/codec/mppc.c:121-422 | behind two ones every offset is read, and a length is refused exactly when it starts with twelve ones, fifteen at level 1 |
| MppcHistory.DecodeAppliesTokens | libfreerdp/codec/mppc.c:121-446 | decoding the bits of any tokens that fit, padded to whole bytes, applies exactly those tokens and stops after the last one |
| MppcFormat.DecodeStops | libfreerdp/codec/mppc.c:121-446 | tokens are applied up to the first that does not fit: -1004 behind the end of the history, -1005 for a copy tuple that leaves it |
| MppcFormat.DecodeRefuses | libfreerdp/codec/mppc.c:418-422 | or up to a length that is none, which gives -1003 |
| MppcIndex.OneSymbolApart | libfreerdp/codec/mppc.c:34-67 | three symbols that differ from three others in one place have another index in the match table |
| MppcChoice.TurnChoice | libfreerdp/codec/mppc.c:511-586 | a turn writes a copy tuple exactly when the table entry p of its three symbols points behind the first of three equal bytes, in reach and not at one of the two positions excluded; the tuple is maximal: it ends at the last symbol, behind the reach or at the first byte that differs. Otherwise it writes a literal |
| MppcChoice.CopiesFromEntry | libfreerdp/codec/mppc.c:562 | the source of that tuple is p - 1 |
| MppcChoice.TurnRefused | libfreerdp/codec/mppc.c:532-586 | a turn gives the packet up exactly when the reserve, two bytes for a literal and seven for a tuple, is not there |
| MppcChoice.CompressedIff | libfreerdp/codec/mppc.c:500-508 | a packet is compressed exactly when no symbol lacks its reserve in the smaller of the buffer and the source; a larger buffer changes nothing |
| MppcChoice.TableIsLast | libfreerdp/codec/mppc.c:519-523 | the table holds for each index the position of the last turn with that index |
| MppcChoice.PacketPlace | libfreerdp/codec/mppc.c:478-492 | a packet continues the history iff that is in use and leaves more than three bytes; flags and next position say so, and a packet given up is the source and leaves the compressor as a reset does |
| MppcSession.ExtendCopies | libfreerdp/codec/mppc.c:568-576 | what the match extension writes is what copying byte by byte from the match writes, and it is the source, as long as HistoryPtr is inside the array or the match is behind the position |
| MppcSession.CopyTupleExact | libfreerdp/codec/mppc.c:517-576 | a copy tuple denotes exactly the source bytes it replaces when replayed byte by byte, also over its own output or into bytes from before a wrap: whatever the match table holds when HistoryPtr is inside the array, and for entries behind the position after a flush |
| MppcSession.ScanStepKeeps | libfreerdp/codec/mppc.c:511-733 | every turn of the scan keeps: the tokens so far, replayed on the history the packet started with, give the compressor's history, which holds the source so far |
| MppcSession.ScanTailKeeps | libfreerdp/codec/mppc.c:739-770 | the same over the trailing literals |
| MppcSession.PacketRoundTrip | libfreerdp/codec/mppc.c:448-789 | compressing and decompressing one packet of at least one byte and at most the history's size returns the source and leaves the ends mirrored, whether it was compressed, wrapped to the front or flushed and sent raw; the compressor stays fit for more unless the packet has filled the array |
| MppcEncoder.StaysInsideIff | libfreerdp/codec/mppc.c:508-511 | the main loop, with its 32-bit end of the source, only takes turns whose symbols are in the source iff the source is not empty |
| MppcSession.LongPacketLost | libfreerdp/codec/mppc.c:428-432 | no compressed packet that is longer than the history of its level comes out, from whatever state of the decompressor |
| MppcSession.DecodedFitsHistory | libfreerdp/codec/mppc.c:129-133 | whatever a compressed packet holds, at most as many bytes as the history has come out |
| MppcLimits.ZerosCompressed | libfreerdp/codec/mppc.c:511-770 | from 64 zeros on, a new compressor of either level sends zeros compressed |
| MppcLimits.LongZerosLost | libfreerdp/codec/mppc.c:448-789 | more than 8192 zeros at level 0 are sent compressed and do not come out of a new decompressor |
| MppcLimits.LowMain | libfreerdp/codec/mppc.c:536-586 | once a scan of symbols below 0x80 has saved four bytes, the reserves never force it to send the packet raw |
| MppcLimits.RollingTurn | libfreerdp/codec/mppc.c:511-576 | the copy tuples of a run of zeros start at j * j + j + 1, each two symbols longer than the one before |
| MppcRepeats.MatchFound | libfreerdp/codec/mppc.c:519-530 | behind the first period of a source whose places have different indices every turn finds a match |
| MppcRepeats.TurnRepeats | libfreerdp/codec/mppc.c:517-576 | the match goes whole periods back, to the entry p, and ends two symbols behind the distance or at the last symbol |
| MppcRepeats.RepeatsCompressed | libfreerdp/codec/mppc.c:448-789 | a block repeated at least twice and for 256 symbols or more, of any values, is sent compressed by a new compressor: nine bits for each symbol of the block and 49 for each of less than sqrt(n) tuples at most |
| MppcExample.AbcCompressed | libfreerdp/codec/mppc.c:448-789 | "abc" repeated for 256 up to 65536 symbols is such a source |
| MppcExample.AbcPacket | libfreerdp/codec/mppc.c:448-789 | "abc" eight times on a new context of level 1: a, b, c, a, (3,5), (6,8), (15,6), c, as PACKET_COMPRESSED and PACKET_AT_FRONT in the eleven bytes given |
| MppcLimits.ZerosFill | libfreerdp/codec/mppc.c:511-785 | 65536 zeros at level 1 are sent compressed and leave HistoryPtr behind the array and the entry of three zeros at 65282 |
| MppcLimits.FirstTuple | libfreerdp/codec/mppc.c:560-576 | the next packet's first match is extended over the first byte of the match table |
| MppcLimits.NextPacketLost | libfreerdp/codec/mppc.c:434-438 | so it is sent compressed and, whatever the decompressor's history holds, comes out wrong |
| MppcLimits.SizesIff | libfreerdp/codec/mppc.c:448-789 | all sessions of packets of low up to high bytes, from all mirrored states of a level, come back iff no packet is empty, none is longer than the history and none fills the array |
| MppcSession.SessionRoundTrip | libfreerdp/codec/mppc.c:75-803 | for every sequence of packets of 1 byte up to that limit and of output buffers, at one level or with level changes that find the compressor able to go on, every packet comes out as it went in and the histories stay mirrored |
| MppcSession.SwitchKeeps | libfreerdp/codec/mppc.c:791-803 | the compressor can go on at the other level, on both sides: upwards unless a raw packet has just been sent, downwards after a raw packet or when all it has used lies in the smaller history |
| MppcSession.FreshSession | libfreerdp/codec/mppc.c:818-850 | in particular from two new contexts, at one level |
| MppcSession.CompressedIsShorter | libfreerdp/codec/mppc.c:500-532 | a packet reported compressed is strictly shorter than its source and the buffer; any other packet is the source, flagged flushed |
| MppcSession.ScanRoom | libfreerdp/codec/mppc.c:584 | the reserves of 2 and 7 bytes cover every literal and copy tuple, so nothing is written past the buffer |
| Mppc.MppcContext.constructor | libfreerdp/codec/mppc.c:818-850 | a new context has a zero history and table and positions 0 |
| Mppc.MppcContext.Reset | libfreerdp/codec/mppc.c:805-816 | history and table are zeroed, the position is 0 or one past the history when flushing |
| Mppc.MppcContext.SetCompressionLevel | libfreerdp/codec/mppc.c:791-803 | only the level and the history size change |
| Mppc.MppcContext.ScanTurn | libfreerdp/codec/mppc.c:511-736 | one turn of the main loop on the arrays is one step of the scan |
| Mppc.MppcContext.Compress | libfreerdp/codec/mppc.c:448-789 | for every packet from 1 byte up to the array's size, in every state: size, flags, the bytes in the output array and the new context are those of the compressor on values |
| Mppc.MppcContext.WriteLiteral | libfreerdp/codec/mppc.c:532-558 | the literal's code follows the bits in the stream, if the reserve is there |
| Mppc.MppcContext.WriteCopy | libfreerdp/codec/mppc.c:580-733 | so do the codes of a copy tuple |
| Mppc.MppcContext.NextToken | libfreerdp/codec/mppc.c:121-422 | the branches on the accumulator register find the token at the front of the stream and consume exactly its bits, or report the invalid code |
| Mppc.MppcContext.Decompress | libfreerdp/codec/mppc.c:75-446 | the output and new context are those of the decompressor on values, its errors included |
| BitStream.AccumulatorAhead | winpr/include/winpr/bitstream.h:62-73 | the 32 bits ahead of the position are the accumulator that the MPPC decoder tests |
| BitStream.WinprBitStream.Fetch | winpr/include/winpr/bitstream.h:50-73 | both registers show the 64 bits ahead, zeros past the end of the buffer |
| BitStream.WinprBitStream.Shift | winpr/include/winpr/bitstream.h:86-112 | fewer than 32 bits are consumed and both registers show the bits ahead of the new position; other numbers change nothing |
| BitStream.WinprBitStream.WriteBits | winpr/include/winpr/bitstream.h:119-136 | the bits of the value follow the bits written so far, across the 32-bit words |
| BitStream.WinprBitStream.Finish | winpr/include/winpr/bitstream.h:75-84 | after the last flush the buffer holds the packed bits, as far as it has room |
| PlanarRle.RowRoundTrip | libfreerdp/codec/planar.c:666-861 | every scanline is read back from its code and the reader stops right behind it |
| PlanarRle.RawsReadBack | libfreerdp/codec/planar.c:684-731 | raw bytes in chunks of 15 with the run after them are read back; the run repeats the last raw byte |
| PlanarRle.RunsReadBack | libfreerdp/codec/planar.c:733-776 | a run split into long and short control bytes is read back as one run |
| PlanarRle.RowCost | libfreerdp/codec/planar.c:781-861 | a row of w symbols takes at most w + ceil(w / 15) bytes |
| PlanarSize.CodeNeeds | libfreerdp/codec/planar.c:34-82 | no code that the parser reads as w symbols has fewer than (w + 46) / 47 bytes |
| PlanarSize.RowLength | libfreerdp/codec/planar.c:666-861 | the exact length of a row's code, counted from its maximal runs: for each the raw symbols, their control bytes and a byte for 47 symbols of the run |
| PlanarSize.ZerosShortest | libfreerdp/codec/planar.c:733-776 | a row of at least three zeros takes (w + 46) / 47 bytes, and no code of it takes fewer |
| PlanarSize.ConstantRow | libfreerdp/codec/planar.c:666-861 | a row of any other symbol takes two bytes for the first sixteen and one for 47 of the others |
| PlanarFormat.RunForm | libfreerdp/codec/planar.c:733-776 | the control bytes of a run of zeros of any length |
| PlanarFormat.RawForm | libfreerdp/codec/planar.c:684-731 | up to 15 raw symbols and a run of up to 15 share a control byte, the number of raw symbols in its high nibble |
| PlanarFormat.DeltaForm | libfreerdp/codec/planar.c:965-1000 | the delta of a symbol is twice its signed distance d from the one above, or -2d - 1 when d is negative |
| KnownAnswers.PlanarRows | libfreerdp/codec/planar.c:666-861 | 100 zeros are F2 F2 06, and four fives 13 05 |
| PlanarPlane.UndeltaDelta | libfreerdp/codec/planar.c:965-1000 | reconstructing the delta of any plane gives the plane, through the zigzag modulo 256 |
| PlanarPlane.PlaneReadsBack | libfreerdp/codec/planar.c:863-909 | the codes of all rows, one after the other, are parsed back into the rows |
| PlanarPlane.PlaneRoundTrip | libfreerdp/codec/planar.c:84-219 | delta, run-length code, parsing and reconstruction give back every plane of every width and height |
| PlanarPlane.CompressOutcome | libfreerdp/codec/planar.c:863-909 | the result is the whole plane iff that fits the buffer; when it does not, the compressor still reports success iff some of the rows fill the buffer exactly |
| PlanarPlane.CompressCompleteIff | libfreerdp/codec/planar.c:880-909 | a reported success is the whole plane iff no proper prefix of its rows fills the buffer exactly |
| PlanarPlane.CompressFits | libfreerdp/codec/planar.c:863-909 | a buffer of w + ceil(w / 15) bytes for each row always holds the whole plane |
| PlanarPlane.CompressCanTruncate | libfreerdp/codec/planar.c:889 | a plane whose second row is silently dropped |
| Planar.WriteRleBytes | libfreerdp/codec/planar.c:666-779 | the bytes of a raw-and-run segment, or 0 when they do not fit |
| Planar.EncodeRleBytes | libfreerdp/codec/planar.c:781-861 | the code of the row when it fits, otherwise 0, and nothing outside the buffer |
| Planar.CompressPlaneRle | libfreerdp/codec/planar.c:863-909 | the result and size of the plane compressor on values, the silent stop included |
| Planar.DeltaEncodePlane | libfreerdp/codec/planar.c:965-1000 | the output holds the delta of every row |
| PlanarDecoder.SkipPlaneRle | libfreerdp/codec/planar.c:34-82 | terminates on every input and returns the bytes of exactly height rows of exactly width symbols, or -1 where no such prefix parses |
| PlanarDecoder.DecodeScanline | libfreerdp/codec/planar.c:103-217 | one scanline: exactly width pixels, absolute or relative to the scanline decoded before, and no other byte |
| PlanarDecoder.DecompressPlaneRle | libfreerdp/codec/planar.c:84-219 | on a stream the skip parser accepts, consumes exactly the bytes it counted, writes the reconstructed plane to its channel in either row order and leaves every other byte alone |
| PlanarDecoder.DecoderFinishesIff | libfreerdp/codec/planar.c:103-217 | on any input the decoder stops, and it finishes every row inside the row and the input exactly when the skip parser accepts the input, with the same bytes left |
| PlanarDecoder.DecoderOnCounted | libfreerdp/codec/planar.c:430-475 | cut to the bytes the skip parser has counted, the input is still accepted with the same rows, and the decoder finishes with no byte left |
| PlanarDecoder.ControlOutcome | libfreerdp/codec/planar.c:147 | a control byte for more pixels than the row has left overruns it up to four times as many, and is rejected only beyond that |
| PlanarDecoder.RowCanBeOverrun | libfreerdp/codec/planar.c:147 | a one-byte stream for a one-pixel plane that the skip parser rejects and on which the decoder leaves its row |
| PlanarCodec.AcceptedIffFits | libfreerdp/codec/planar.c:863-909 | of all that the compressor reports as success, the skip parser accepts exactly what is the whole plane |
| PlanarCodec.ThroughTheCodec | libfreerdp/codec/planar.c:863-1000 | delta, compressor, skip parser and decoder, run one after the other: the plane is in the image exactly when its code fits the buffer, and otherwise the image is untouched |
| PlanarCodec.PixelArrives | libfreerdp/codec/planar.c:84-219 | in a finished image each pixel of each row is the plane's, counted from the top or from the bottom |
| ImaAdpcm.Lockstep | libfreerdp/codec/dsp.c:119-155 | the decoder's sample and step after a code are the encoder's after producing it |
| ImaAdpcm.QuantizerError | libfreerdp/codec/dsp.c:274-337 | a sample within two steps is reproduced to an eighth of a step and 2; one further away gets the largest code and moves the prediction at least one step closer |
| ImaSteps.StepSizes | libfreerdp/codec/dsp.c:106-117 | the step sizes run from 7 to 32767, each between 17/16 and 8/7 of the one before |
| ImaSteps.StepFollows | libfreerdp/codec/dsp.c:274-337 | a sample less than a step away takes one size off the step; from a step on each quarter of a step adds two, up to eight |
| ImaSteps.StepGrows | libfreerdp/codec/dsp.c:274-337 | a larger error never leads to a smaller step |
| ImaSteps.StepAdapts | libfreerdp/codec/dsp.c:274-337 | a sample two steps away or more at least doubles the step while there are sizes left, and one less than a step away never enlarges it |
| ImaSteps.Settles | libfreerdp/codec/dsp.c:274-337 | from every channel, 104 equal samples bring the encoder to reconstruct the value itself with the smallest step |
| KnownAnswers.ImaBytes | libfreerdp/codec/dsp.c:224-236 | the samples of four mono data bytes from sample 0 and step 0: the low nibble comes first |
| KnownAnswers.StereoUnit | libfreerdp/codec/dsp.c:243-272 | each sample of a stereo unit has its code at its nibble of its channel's four bytes |
| KnownAnswers.ImaHeader | libfreerdp/codec/dsp.c:362-377 | the bytes of a mono and a stereo header |
| KnownAnswers.ImaBlocks | libfreerdp/codec/dsp.c:362-391 | a header opens every block |
| ImaAdpcm.UnitRoundTrip | libfreerdp/codec/dsp.c:243-272 | a data unit decodes to the encoder's reconstruction, through nibble order and the stereo interleave |
| ImaAdpcm.HeaderRoundTrip | libfreerdp/codec/dsp.c:362-377 | a block header gives the decoder the encoder's predictors, whatever state it was in |
| ImaAdpcm.StreamRoundTrip | libfreerdp/codec/dsp.c:157-410 | for every mono or stereo stream that fills its last block, decoding gives exactly the encoder's own reconstruction of every sample; steps stay in 0..88 by their type |
| ImaBuffer.EncodedFits | libfreerdp/codec/dsp.c:348-358 | a stereo stream, or a mono stream of blocks of at least 9 bytes, fits a buffer as long as half the input, when the buffer is one a call has grown |
| ImaBuffer.MonoBytes | libfreerdp/codec/dsp.c:360-391 | the exact length of a mono stream: half a byte for each sample and four for each header |
| ImaBuffer.EstimateFails | libfreerdp/codec/dsp.c:348-358 | for mono blocks of 1 to 8 bytes, two calls on a new context of which the second writes at least 1029 bytes into 1026 |
| ImaBuffer.EstimateSufficesIff | libfreerdp/codec/dsp.c:348-358 | the estimate is enough for all streams, states and buffers exactly for stereo and for mono blocks of at least 9 bytes |
| ImaContext.PartialStep | libfreerdp/codec/dsp.c:243-272 | the stereo map places every code in bits of its byte that are still clear |
| ImaContext.DspContext.constructor | libfreerdp/codec/dsp.c:676-692 | a new context is zero and has no buffer |
| ImaContext.DspContext.DecodeSample | libfreerdp/codec/dsp.c:119-155 | the channel becomes the decoder step on values; the other channel stays |
| ImaContext.DspContext.EncodeSample | libfreerdp/codec/dsp.c:274-337 | the code and the channel are those of the encoder step on values; the other channel stays |
| ImaContext.DspContext.EncodeStereo | libfreerdp/codec/dsp.c:379-391 | the sixteen-turn loop over the map writes the eight bytes of a stereo unit |
| ImaContext.DspContext.DecodeStereo | libfreerdp/codec/dsp.c:202-222 | the eight-turn loop puts every sample at its place in the output |
| ImaContext.DspContext.Encode | libfreerdp/codec/dsp.c:339-410 | for every input of whole units that fits the buffer as it grows, which is all of them exactly in the case above, buffer and predictors are those of the stream encoder on values |
| ImaContext.DspContext.Decode | libfreerdp/codec/dsp.c:157-241 | the output samples and the predictors are those of the stream decoder on values |
| MsAdpcm.MsLockstep | libfreerdp/codec/dsp.c:434-459 | the decoder's history and step after a code are the encoder's after producing it |
| MsAdpcm.MsQuantizerError | libfreerdp/codec/dsp.c:562-594 | before the clamp a sample is reproduced to less than a step exactly when the prediction is off by less than 9 steps one way and 8 the other, and the clamp only brings it closer |
| MsPredictors.Predictions | libfreerdp/codec/dsp.c:424-449 | what each predictor makes of the code 0: the last sample, the line through the last two, silence, and the quotients of 3x + y by 4, 15x by 16, 115x - 52y by 64 and 49x - 29y by 32 |
| MsPredictors.CodeAddsSteps | libfreerdp/codec/dsp.c:434-449 | any other code adds its signed number of steps to that |
| MsPredictors.StepFollows | libfreerdp/codec/dsp.c:418-422 | an error of up to three steps takes a tenth off the step, and four to eight multiply it by 1.2, 1.6, 2, 2.4 and 3, in 256ths and never below 16 |
| MsPredictors.StepGrows | libfreerdp/codec/dsp.c:418-422 | a larger error never leads to a smaller step |
| MsPredictors.ErrorCode | libfreerdp/codec/dsp.c:562-594 | an error upwards is coded as the nearest number of steps up to 7, one downwards as the whole steps in it up to 8 |
| MsPredictors.LineSample | libfreerdp/codec/dsp.c:562-594 | a sample on the line that the predictor follows is coded as 0, comes back as it is and keeps the channel on the line |
| MsPredictors.LineHeard | libfreerdp/codec/dsp.c:596-674 | mono streams that are constant (predictors 0, 1 and 3) or a ramp (predictor 1) are encoded without loss |
| MsPredictors.LinesHeard | libfreerdp/codec/dsp.c:596-674 | the same for stereo streams with such a signal in each channel |
| MsPredictors.LineRoundTrip | libfreerdp/codec/dsp.c:461-674 | and they come out of any decoder as they were |
| MsPredictors.LinesRoundTrip | libfreerdp/codec/dsp.c:461-674 | in stereo with an even number of data bytes to a block |
| KnownAnswers.MsBytes | libfreerdp/codec/dsp.c:532-554 | the samples of data bytes with the silent predictor: the high nibble comes first and is the left channel's |
| KnownAnswers.MsHeaders | libfreerdp/codec/dsp.c:625-661 | the bytes of a mono and a stereo header for given first frames |
| KnownAnswers.MsPrediction | libfreerdp/codec/dsp.c:434-449 | predictor 3 after 0 and 100 predicts 75 |
| MsAdpcm.DeltaStays | libfreerdp/codec/dsp.c:586-591 | whatever is encoded, a step stays in the range the 32-bit product can take, and never grows beyond 24576 for the predictors 0, 2, 3 and 4 or 49152 for the others |
| MsAdpcm.MsHeaderRoundTrip | libfreerdp/codec/dsp.c:625-661 | a header gives back the encoder's channels iff their steps are at most 32767 |
| MsStream.MsStreamRoundTrip | libfreerdp/codec/dsp.c:461-674 | decoding gives the first two frames of each block unchanged and the encoder's own reconstruction of all others, for streams that fill their last block and whose steps fit their headers, with an even number of data bytes to a block when stereo |
| MsStream.EvenDataBytes | libfreerdp/codec/dsp.c:619 | which it is for even block sizes and 9, 11 and 13 |
| MsStream.OddBlockFails | libfreerdp/codec/dsp.c:529-545 | no decoder reads one stereo block with an odd number of data bytes |
| MsStream.StereoWorksIff | libfreerdp/codec/dsp.c:461-674 | all stereo streams of a block size come back exactly when its blocks have an even number of data bytes |
| MsStream.TameFits | libfreerdp/codec/dsp.c:625-661 | with a predictor of 0, 2, 3 or 4 and steps that fit a header now, every header of every stream holds its steps |
| MsHeaders.FitsIffTame | libfreerdp/codec/dsp.c:625-661 | and those predictors are the only ones for which it does, mono or stereo |
| MsStream.TameRoundTrip | libfreerdp/codec/dsp.c:461-674 | so for those predictors the stream result holds without a condition on what the encoder computes |
| MsHeaders.HeaderCanLose | libfreerdp/codec/dsp.c:496-504 | a context that has decoded eight bytes of silence with predictor 1 encodes two blocks that every decoder accepts and gets wrong: -30727 for 32767 |
| MsBuffer.RoomSizes | libfreerdp/codec/dsp.c:619 | the block sizes whose data bytes outweigh the header |
| MsBuffer.StreamLength | libfreerdp/codec/dsp.c:617-670 | for those, an upper bound on the output that is below the number of samples from 264 samples on |
| MsBuffer.MsEstimateFails | libfreerdp/codec/dsp.c:603-613 | for all other block sizes, two calls on a new context: decoding some bytes of silence grows the buffer, and encoding a stream that asks for no more then writes more than it holds |
| MsBuffer.MsEstimateSufficesIff | libfreerdp/codec/dsp.c:603-613 | so the estimate is enough for all streams, states and buffers exactly for those block sizes: 7 and from 13 on, and for stereo 13, 14 and from 25 on |
| MsContext.MsAdpcmContext.DecodeSample | libfreerdp/codec/dsp.c:434-459 | the channel becomes the decoder step on values |
| MsContext.MsAdpcmContext.EncodeSample | libfreerdp/codec/dsp.c:562-594 | the code and the channel are those of the encoder step on values |
| MsContext.MsAdpcmContext.Encode | libfreerdp/codec/dsp.c:596-674 | for every stream that fits the buffer as it grows, bytes and channels are those of the stream encoder on values |
| MsContext.MsAdpcmContext.Decode | libfreerdp/codec/dsp.c:461-559 | the buffer grows as in the source; samples and channels are those of the stream decoder on values |
| NscRle.DecodeFromPending | libfreerdp/codec/nsc_encode.c:269-324 | at every point of the encoder's loop, decoding what it still writes gives the pending run and everything after it |
| NscRle.RleRoundTrip | libfreerdp/codec/nsc.c:108-152 | whenever the encoder reports fewer bytes than the plane has, it wrote exactly that many and they decode to the plane, with runs of any length, the literal fifth byte from the end and the verbatim tail |
| NscRle.PlaneRoundTrip | libfreerdp/codec/nsc_encode.c:326-349 | a plane is never sent longer than it is and comes back unchanged, run-length encoded, raw or empty |
| NscSize.SentSize | libfreerdp/codec/nsc_encode.c:269-349 | a plane of more than four bytes is sent run-length encoded exactly when that is shorter, with as many bytes as its runs cost, 1, 3 or 7 each and 4 for the tail, and as it is otherwise |
| NscSize.AbsentPlane | libfreerdp/codec/nsc.c:169-170 | a plane that was not sent is opaque |
| NscRle.RunFormat | libfreerdp/codec/nsc.c:125-133 | two equal bytes and a third below 0xFF are a run two longer than the third |
| NscRle.LongRunFormat | libfreerdp/codec/nsc.c:134-139 | with 0xFF the length is in the next four bytes, low byte first |
| KnownAnswers.NscPlane | libfreerdp/codec/nsc_encode.c:269-349 | 64 fives are sent as 05 05 3A 05 05 05 05 |
| NscRle.MessageRoundTrip | libfreerdp/codec/nsc.c:154-178 | all planes of a message come back, each found where the sizes before it add up to |
| Nsc.RleEncode | libfreerdp/codec/nsc_encode.c:269-324 | size and bytes of the encoder on values, within the plane's size and 4 bytes more |
| Nsc.RleDecode | libfreerdp/codec/nsc.c:108-152 | the decoded plane and the bytes used |
| Nsc.NscContext.CompressData | libfreerdp/codec/nsc_encode.c:326-349 | every plane buffer starts with its compressed plane and the byte counts are their lengths |
| Nsc.NscContext.DecompressData | libfreerdp/codec/nsc.c:154-178 | every plane buffer starts with its decompressed plane |
| ImageMove.SrcDstApart | libfreerdp/codec/color.c:3592-3666 | a source row is never in the way of a destination row written before it, in the order each branch uses |
| ImageMove.RowMoved | libfreerdp/codec/color.c:3600-3660 | one row copy extends the moved rows by one and changes nothing else |
| ImageMove.ImageMove | libfreerdp/codec/color.c:3577-3666 | the destination rectangle equals the old source rectangle and every other byte is unchanged, for all placements inside the stride; plain copies never overlap |
| ImageMove.PixelMoved | libfreerdp/codec/color.c:3577-3666 | the same for each byte of each pixel |
| RfxBits.FieldsRoundTrip | libfreerdp/codec/rfx_bitstream.h:34-79 | every sequence of values put into zeroed bits with room for them is read back with the same widths, modulo 2 to the width |
| RfxBits.FieldFits | libfreerdp/codec/rfx_bitstream.h:58-62 | which is the value itself when it fits its width |
| RfxBits.ShiftedBits | libfreerdp/codec/rfx_bitstream.h:67-68 | the shifted and masked piece is a byte with the next bits of the value at the first free place |
| RfxBits.RfxBitStream.PutBits | libfreerdp/codec/rfx_bitstream.h:58-79 | on any buffer the low bits of the value are or-ed in at the position, across byte boundaries, as far as there is room, and the position advances by as many |
| RfxBits.RfxBitStream.GetBits | libfreerdp/codec/rfx_bitstream.h:34-56 | the result is the number whose bits stand at the position, modulo 2 to the 16th, and the position advances by as many |

## Left out

- MppcSession.SessionRoundTrip: level changes that do not find the compressor able to go on (`MppcSession.Switchable`) are not covered; in `bulk.c` the level is a setting of the connection.
- MppcSession.PacketRoundTrip: needs `*pDstSize >= 1`.
- Mppc.MppcContext.Compress: packets longer than the array, which are written over the match table, are not modelled, nor is what a compressor does after it has run off an empty source.
- Mppc.MppcContext.Decompress: a context that has also compressed, whose match table is not zero, is not modelled.
- ImaContext.DspContext.Encode: inputs that end inside a unit, for which the source reads on behind them, are not modelled; nor is what happens once a stream has outgrown its buffer.
- ImaContext.DspContext.Decode: streams that the decoder runs off, and headers with a step outside the step table, are not modelled.
- MsAdpcm.DeltaStays: starts from steps for which the 32-bit product with the adaptation factor does not overflow.
- MsContext.MsAdpcmContext.Encode: inputs that end inside a header or a pair of samples, for which the source reads on behind them, are not modelled.
- PlanarDecoder.DecompressPlaneRle: what C does after a row or the input has been overrun is not modelled. `planar_decompress` calls the skip parser first, and by `PlanarDecoder.DecoderFinishesIff` nothing is overrun on what that accepts.
- MsContext.MsAdpcmContext.Decode: streams that the decoder runs off, predictors above 6 and steps whose product with the adaptation factor leaves 32 bits are not modelled.
- RfxBits.RfxBitStream.PutBits: more than 32 bits, for which the shift of the source is not defined, are written as zeros.
- Nsc.RleDecode: streams that leave their plane or their input are not modelled.
- ImageMove.ImageMove: placements outside the stride or the buffer are not modelled.
- Allocation failure, `free`, shrinking with `realloc`, logging and profiling: allocation succeeds.
- `planar_decompress` apart from its planes, and colour loss, subsampling and pixel conversions in `planar.c` and the NSCodec files.
- `freerdp_bitmap_flip` and the conversions in `color.c`, RemoteFX beyond its bit stream, H.264, JPEG, ClearCodec and the interleaved codec: wrappers, finite per-pixel conversions, or code whose counterpart is not part of this model.
- Channels, clients, caches and user interfaces: option handling and fixed-field reads.
