/**
 * The arithmetic of saving a bundle: the LZMA re-chunking of the payload, the block flag
 * tags, the stored sizes of the compressed blocks, and the order and length of the parts
 * the writer emits.
 */
module BundleLayout {
  import opened Bytes
  import opened Cursor
  import opened BlocksInfo

  /** `UINT32_MAX`, the size of every LZMA chunk but the last. */
  const UINT32_MAX: nat := 0xFFFF_FFFF

  /** The number of LZMA chunks, `total / UINT32_MAX + (total % UINT32_MAX ? 1 : 0)`. */
  function ChunkCount(total: nat): nat
  {
    total / UINT32_MAX + (if total % UINT32_MAX != 0 then 1 else 0)
  }

  /** Chunk `i`'s size as the re-chunking loop assigns it: the last one gets `total % UINT32_MAX`. */
  function ChunkSizeAsWritten(total: nat, i: nat): u32
  {
    if i == ChunkCount(total) - 1 then total % UINT32_MAX else UINT32_MAX
  }

  /** Chunk `i`'s size when the chunks cover the payload: the last one gets what the others leave. */
  function ChunkSize(total: nat, i: nat): u32
  {
    if i == ChunkCount(total) - 1 then
      var rest := total - (ChunkCount(total) - 1) * UINT32_MAX;
      if 0 <= rest <= UINT32_MAX then rest else 0
    else UINT32_MAX
  }

  /** The first `ChunkCount(total)` block records with the sizes of the loop as written. */
  function RechunkedAsWritten(bs: seq<StorageBlockInfo>, total: nat): (r: seq<StorageBlockInfo>)
    requires ChunkCount(total) <= |bs|
    ensures |r| == ChunkCount(total)
  {
    seq(ChunkCount(total), i requires 0 <= i < ChunkCount(total) =>
      bs[i].(uncompressedSize := ChunkSizeAsWritten(total, i)))
  }

  /** The first `ChunkCount(total)` block records with sizes that cover the payload. */
  function Rechunked(bs: seq<StorageBlockInfo>, total: nat): (r: seq<StorageBlockInfo>)
    requires ChunkCount(total) <= |bs|
    ensures |r| == ChunkCount(total)
  {
    seq(ChunkCount(total), i requires 0 <= i < ChunkCount(total) =>
      bs[i].(uncompressedSize := ChunkSize(total, i)))
  }

  /** A payload of at most `n` full chunks needs at most `n` chunks: the block array is never overrun. */
  lemma ChunkCountFits(n: nat, total: nat)
    requires total <= n * UINT32_MAX
    ensures ChunkCount(total) <= n
  {
  }

  /** The split of `total` into full chunks and the last one. */
  lemma ChunkSplit(total: nat)
    requires total > 0
    ensures ChunkCount(total) >= 1
    ensures (ChunkCount(total) - 1) * UINT32_MAX < total <= ChunkCount(total) * UINT32_MAX
    ensures total % UINT32_MAX != 0 ==> total - (ChunkCount(total) - 1) * UINT32_MAX == total % UINT32_MAX
    ensures total % UINT32_MAX == 0 ==> total - (ChunkCount(total) - 1) * UINT32_MAX == UINT32_MAX
  {
    var q, r := total / UINT32_MAX, total % UINT32_MAX;
    assert total == UINT32_MAX * q + r;
    if r == 0 {
      assert q >= 1;
      MulDistrib(UINT32_MAX, q - 1, 1);
    } else {
      MulDistrib(UINT32_MAX, q, 1);
    }
  }

  /** Blocks that are all full chunks before index `k` hold `k` full chunks. */
  lemma {:induction false} FullChunksSize(cs: seq<StorageBlockInfo>, k: nat)
    requires k <= |cs|
    requires forall j :: 0 <= j < k ==> cs[j].uncompressedSize == UINT32_MAX
    ensures PayloadSize(cs[..k]) == k * UINT32_MAX
  {
    if k > 0 {
      assert cs[..k][..k - 1] == cs[..k - 1];
      FullChunksSize(cs, k - 1);
      MulDistrib(UINT32_MAX, k - 1, 1);
    }
  }

  /** The corrected chunks cover the payload exactly, each chunk holding between 1 and `UINT32_MAX` bytes. */
  lemma RechunkedCovers(bs: seq<StorageBlockInfo>, total: nat)
    requires ChunkCount(total) <= |bs|
    ensures PayloadSize(Rechunked(bs, total)) == total
    ensures forall i :: 0 <= i < |Rechunked(bs, total)| ==> 0 < Rechunked(bs, total)[i].uncompressedSize <= UINT32_MAX
    ensures total % UINT32_MAX != 0 ==> RechunkedAsWritten(bs, total) == Rechunked(bs, total)
  {
    var cs := Rechunked(bs, total);
    if total == 0 {
      assert cs == [];
    } else {
      ChunkSplit(total);
      var n := ChunkCount(total);
      FullChunksSize(cs, n - 1);
      assert cs[..n] == cs;
    }
  }

  /**
   * As written, a payload that is a non-zero multiple of `UINT32_MAX` bytes gets a last chunk
   * of 0 bytes: the chunks then cover one full chunk less than the payload.
   */
  lemma RechunkedAsWrittenDropsLastChunk(bs: seq<StorageBlockInfo>, total: nat)
    requires ChunkCount(total) <= |bs| && total > 0 && total % UINT32_MAX == 0
    ensures RechunkedAsWritten(bs, total)[ChunkCount(total) - 1].uncompressedSize == 0
    ensures PayloadSize(RechunkedAsWritten(bs, total)) == total - UINT32_MAX
  {
    var cs := RechunkedAsWritten(bs, total);
    ChunkSplit(total);
    var n := ChunkCount(total);
    FullChunksSize(cs, n - 1);
    assert cs[..n] == cs;
  }

  /** The smallest such payload: one full chunk, re-chunked into one block of 0 bytes. */
  lemma RechunkedAsWrittenExample()
    ensures var bs := [StorageBlockInfo(UINT32_MAX, 0, 0)];
      ChunkCount(UINT32_MAX) == 1 &&
      RechunkedAsWritten(bs, UINT32_MAX) == [StorageBlockInfo(0, 0, 0)] &&
      Rechunked(bs, UINT32_MAX) == bs
  {
    var bs := [StorageBlockInfo(UINT32_MAX, 0, 0)];
    assert ChunkCount(UINT32_MAX) == 1;
    assert RechunkedAsWritten(bs, UINT32_MAX)[0] == StorageBlockInfo(0, 0, 0);
    assert Rechunked(bs, UINT32_MAX)[0] == bs[0];
  }

  /** The block flags OR-ed with the target codec tag. */
  function TagFlags(bs: seq<StorageBlockInfo>, tag: bv16): (r: seq<StorageBlockInfo>)
    ensures |r| == |bs|
    ensures forall i :: 0 <= i < |bs| ==> r[i] == bs[i].(flags := bs[i].flags | tag)
  {
    seq(|bs|, i requires 0 <= i < |bs| => bs[i].(flags := bs[i].flags | tag))
  }

  lemma {:induction false} TagFlagsSize(bs: seq<StorageBlockInfo>, tag: bv16)
    ensures PayloadSize(TagFlags(bs, tag)) == PayloadSize(bs)
  {
    if bs != [] {
      assert TagFlags(bs, tag)[..|bs| - 1] == TagFlags(bs[..|bs| - 1], tag);
      TagFlagsSize(bs[..|bs| - 1], tag);
    }
  }

  /** Where block `|bs|` starts in the stored blocks: the stored sizes before it, summed. */
  function StoredTotal(bs: seq<StorageBlockInfo>): nat
  {
    if bs == [] then 0 else StoredTotal(bs[..|bs| - 1]) + bs[|bs| - 1].compressedSize
  }

  /** The compressed blocks, one after the other. */
  function Concat(chunks: seq<seq<byte>>): seq<byte>
  {
    if chunks == [] then [] else Concat(chunks[..|chunks| - 1]) + chunks[|chunks| - 1]
  }

  lemma ConcatSnoc(chunks: seq<seq<byte>>, i: nat)
    requires i < |chunks|
    ensures Concat(chunks[..i + 1]) == Concat(chunks[..i]) + chunks[i]
  {
    assert chunks[..i + 1][..i] == chunks[..i];
  }

  /** The blocks written so far are never more than all of them. */
  lemma {:induction false} ConcatPrefixLength(chunks: seq<seq<byte>>, i: nat)
    requires i <= |chunks|
    ensures |Concat(chunks[..i])| <= |Concat(chunks)|
    decreases |chunks|
  {
    if i < |chunks| {
      var p := chunks[..|chunks| - 1];
      assert p[..i] == chunks[..i];
      ConcatPrefixLength(p, i);
    } else {
      assert chunks[..i] == chunks;
    }
  }

  /** Each record's `compressedSize` set to its compressed block's length, truncated to 32 bits. */
  function WithStoredSizes(bs: seq<StorageBlockInfo>, chunks: seq<seq<byte>>): (r: seq<StorageBlockInfo>)
    requires |chunks| == |bs|
    ensures |r| == |bs|
    ensures forall i :: 0 <= i < |bs| ==> r[i] == bs[i].(compressedSize := |chunks[i]| % UINT32_LIMIT)
  {
    seq(|bs|, i requires 0 <= i < |bs| => bs[i].(compressedSize := |chunks[i]| % UINT32_LIMIT))
  }

  /** With blocks under 4 GiB the stored sizes add up to the bytes written, and the payload sizes are kept. */
  lemma {:induction false} WithStoredSizesTotals(bs: seq<StorageBlockInfo>, chunks: seq<seq<byte>>)
    requires |chunks| == |bs|
    requires forall i :: 0 <= i < |chunks| ==> |chunks[i]| < UINT32_LIMIT
    ensures StoredTotal(WithStoredSizes(bs, chunks)) == |Concat(chunks)|
  {
    if bs != [] {
      var n := |bs|;
      assert WithStoredSizes(bs, chunks)[..n - 1] == WithStoredSizes(bs[..n - 1], chunks[..n - 1]);
      WithStoredSizesTotals(bs[..n - 1], chunks[..n - 1]);
    }
  }

  /** Recording the stored sizes leaves the payload sizes alone. */
  lemma {:induction false} WithStoredSizesPayload(bs: seq<StorageBlockInfo>, chunks: seq<seq<byte>>)
    requires |chunks| == |bs|
    ensures PayloadSize(WithStoredSizes(bs, chunks)) == PayloadSize(bs)
  {
    if bs != [] {
      var n := |bs|;
      assert WithStoredSizes(bs, chunks)[..n - 1] == WithStoredSizes(bs[..n - 1], chunks[..n - 1]);
      WithStoredSizesPayload(bs[..n - 1], chunks[..n - 1]);
    }
  }

  /** The zero bytes `Align()` adds at `pos` when `on`. */
  function PadTo16(pos: nat, on: bool): nat
  {
    if on then AlignUp(pos) - pos else 0
  }

  /**
   * `mSize` as the source computes it: header, header padding, metadata, payload padding, the
   * stored block sizes, in that order whether the metadata is written before the blocks or after.
   */
  function SaveSizeAsWritten(headerSize: nat, aligned: bool, pad: bool, metaLen: nat, storedLen: nat): nat
  {
    var s0 := headerSize + PadTo16(headerSize, aligned);
    var s1 := s0 + metaLen;
    s1 + PadTo16(s1, pad) + storedLen
  }

  /** The number of bytes the writes emit, in the order they are made. */
  function LayoutLength(headerSize: nat, aligned: bool, pad: bool, atEnd: bool, metaLen: nat, storedLen: nat): nat
  {
    var s0 := headerSize + PadTo16(headerSize, aligned);
    var s1 := s0 + (if atEnd then 0 else metaLen);
    s1 + PadTo16(s1, pad) + storedLen + (if atEnd then metaLen else 0)
  }

  /** The two agree unless the metadata goes at the end and the payload padding is on. */
  lemma SaveSizeAsWrittenAgrees(headerSize: nat, aligned: bool, pad: bool, atEnd: bool, metaLen: nat, storedLen: nat)
    requires !(atEnd && pad)
    ensures SaveSizeAsWritten(headerSize, aligned, pad, metaLen, storedLen) ==
            LayoutLength(headerSize, aligned, pad, atEnd, metaLen, storedLen)
  {
  }

  /**
   * With the metadata at the end and the padding on, the source pads after the metadata's
   * length but writes the padding before it: a 16-byte header and 1 byte of metadata give a
   * 32-byte buffer for 33 bytes of output.
   */
  lemma SaveSizeAsWrittenOverrun()
    ensures SaveSizeAsWritten(16, false, true, 1, 0) == 32
    ensures LayoutLength(16, false, true, true, 1, 0) == 33
  {
  }

  /** The bytes the writer emits: header, padding, metadata unless at the end, padding, blocks, metadata if at the end. */
  function Layout(header: seq<byte>, aligned: bool, pad: bool, atEnd: bool, meta: seq<byte>, chunks: seq<seq<byte>>)
    : (r: seq<byte>)
    ensures |r| == LayoutLength(|header|, aligned, pad, atEnd, |meta|, |Concat(chunks)|)
  {
    LayoutFront(header, aligned, pad, atEnd, meta) + Concat(chunks) + Optional(atEnd, meta)
  }

  /** What precedes the blocks: header, padding, metadata unless at the end, padding. */
  function LayoutFront(header: seq<byte>, aligned: bool, pad: bool, atEnd: bool, meta: seq<byte>): seq<byte>
  {
    var s0 := header + Zeros(PadTo16(|header|, aligned));
    var s1 := s0 + Optional(!atEnd, meta);
    s1 + Zeros(PadTo16(|s1|, pad))
  }

  /** `s` when `on`, nothing otherwise: the metadata at one of its two places. */
  function Optional(on: bool, s: seq<byte>): (r: seq<byte>)
    ensures |r| == if on then |s| else 0
  {
    if on then s else []
  }
}
