/**
 * Reopening a saved bundle: the bytes `ToBytes(codec)` writes, read back by the loader from
 * just after the header, give the payload and the directory entries the bundle held before
 * it was saved. What the codec libraries must do for this is a premise (`RoundTrips`); the
 * rest is proved from the layout the writer emits and the loader reads.
 */
module SaveLoad {
  import opened Wrappers
  import opened Bytes
  import opened Cursor
  import opened BundleHeader
  import Compression
  import opened BlocksInfo
  import opened BundleLayout
  import opened Bundle

  /** What the loader establishes about every state it returns, and `ToBytes` relies on. */
  predicate LoadedShape(s: BundleState)
  {
    s.quirks == QuirkProfile(s.header.engine) &&
    s.header.flags & COMPRESSION_TYPE_MASK == 0 &&
    (s.atEnd <==> s.header.flags & BLOCKS_INFO_AT_THE_END != 0) &&
    (forall i :: 0 <= i < |s.meta.blocks| ==> s.meta.blocks[i].flags == 0) &&
    (s.header.version >= 7 ==> s.headerAligned) &&
    (s.header.version < 7 && !(s.header.engine.major == 2019 && s.header.engine.minor == 4) ==> !s.headerAligned) &&
    DataSizeOf(s.meta).Ok?
  }

  /** Where block `i`'s bytes start in the payload: the uncompressed sizes before it, summed. */
  function Offset(bs: seq<StorageBlockInfo>, i: nat): nat
    requires i <= |bs|
  {
    if i == 0 then 0 else Offset(bs, i - 1) + bs[i - 1].uncompressedSize
  }

  /** `Offset` is the payload size of the records before block `i`. */
  lemma {:induction false} OffsetIsPayloadSize(bs: seq<StorageBlockInfo>, i: nat)
    requires i <= |bs|
    ensures Offset(bs, i) == PayloadSize(bs[..i])
    ensures i < |bs| ==> Offset(bs, i) + bs[i].uncompressedSize <= PayloadSize(bs)
  {
    if i > 0 {
      OffsetIsPayloadSize(bs, i - 1);
      PayloadSizePrefix(bs, i - 1);
    }
    if i < |bs| {
      PayloadSizePrefix(bs, i);
    }
  }

  /** The payload bytes block `i` spans. */
  function ChunkInput(payload: seq<byte>, bs: seq<StorageBlockInfo>, i: nat): (r: seq<byte>)
    requires i < |bs| && PayloadSize(bs) <= |payload|
    ensures |r| == bs[i].uncompressedSize
  {
    OffsetIsPayloadSize(bs, i);
    payload[Offset(bs, i)..Offset(bs, i) + bs[i].uncompressedSize]
  }

  /** The bytes of block `i` are the payload from its offset on, as many as the record says. */
  lemma ChunkInputSlice(payload: seq<byte>, bs: seq<StorageBlockInfo>, i: nat)
    requires i < |bs| && PayloadSize(bs) <= |payload|
    ensures Offset(bs, i) + bs[i].uncompressedSize <= |payload|
    ensures ChunkInput(payload, bs, i) == payload[Offset(bs, i)..Offset(bs, i) + bs[i].uncompressedSize]
  {
    OffsetIsPayloadSize(bs, i);
  }

  /** Block `i` starts at the same place in any longer list of records. */
  lemma {:induction false} OffsetPrefix(bs: seq<StorageBlockInfo>, c: seq<StorageBlockInfo>, i: nat)
    requires i <= |bs| <= |c| && forall k :: 0 <= k < |bs| ==> bs[k] == c[k]
    ensures Offset(bs, i) == Offset(c, i)
  {
    if i > 0 {
      OffsetPrefix(bs, c, i - 1);
    }
  }

  /** The compression loop's last step: the chunks of all blocks but the last, then the last block's chunk. */
  lemma CompressedChunksLast(payload: seq<byte>, bs: seq<StorageBlockInfo>, codec: nat, b: Compression.Backends,
                             chunks: seq<seq<byte>>)
    requires bs != [] && PayloadSize(bs) <= |payload|
    requires CompressedChunks(payload, bs, codec, b) == Ok(chunks)
    ensures PayloadSize(bs[..|bs| - 1]) <= |payload| && |chunks| == |bs|
    ensures CompressedChunks(payload, bs[..|bs| - 1], codec, b) == Ok(chunks[..|bs| - 1])
    ensures Compression.Encoded(b, codec, ChunkInput(payload, bs, |bs| - 1)) == Ok(chunks[|bs| - 1])
  {
    var n := |bs| - 1;
    PayloadSizePrefix(bs, n);
    assert bs[..n + 1] == bs;
    var p := bs[..n];
    var prefix := CompressedChunks(payload, p, codec, b).value;
    var last := payload[PayloadSize(p)..PayloadSize(p) + bs[n].uncompressedSize];
    assert Compression.Encoded(b, codec, last) == Ok(chunks[n]) && chunks == prefix + [chunks[n]];
    assert chunks[..n] == prefix;
    ChunkInputSlice(payload, bs, n);
    OffsetIsPayloadSize(bs, n);
  }

  /** The compression loop's chunks are, block by block, the codec's output for that block's bytes. */
  lemma {:induction false} CompressedChunksMember(payload: seq<byte>, bs: seq<StorageBlockInfo>, codec: nat,
                                                  b: Compression.Backends, chunks: seq<seq<byte>>)
    requires PayloadSize(bs) <= |payload|
    requires CompressedChunks(payload, bs, codec, b) == Ok(chunks)
    ensures |chunks| == |bs|
    ensures forall i :: 0 <= i < |bs| ==> Compression.Encoded(b, codec, ChunkInput(payload, bs, i)) == Ok(chunks[i])
  {
    if bs != [] {
      var n := |bs| - 1;
      CompressedChunksLast(payload, bs, codec, b, chunks);
      CompressedChunksMember(payload, bs[..n], codec, b, chunks[..n]);
      forall i | 0 <= i < |bs|
        ensures Compression.Encoded(b, codec, ChunkInput(payload, bs, i)) == Ok(chunks[i])
      {
        if i < n {
          ChunkInputInit(payload, bs, i);
          assert chunks[..n][i] == chunks[i];
        }
      }
    }
  }

  /** Records with the same uncompressed sizes span the same payload bytes. */
  lemma {:induction false} SameSizesPayload(a: seq<StorageBlockInfo>, c: seq<StorageBlockInfo>)
    requires |a| == |c| && forall i :: 0 <= i < |a| ==> a[i].uncompressedSize == c[i].uncompressedSize
    ensures PayloadSize(a) == PayloadSize(c)
  {
    if a != [] {
      SameSizesPayload(a[..|a| - 1], c[..|c| - 1]);
    }
  }

  lemma {:induction false} SameSizesOffset(a: seq<StorageBlockInfo>, c: seq<StorageBlockInfo>, i: nat)
    requires |a| == |c| && forall k :: 0 <= k < |a| ==> a[k].uncompressedSize == c[k].uncompressedSize
    requires i <= |a|
    ensures Offset(a, i) == Offset(c, i)
  {
    if i > 0 {
      SameSizesOffset(a, c, i - 1);
    }
  }

  lemma SameSizesChunkInput(payload: seq<byte>, a: seq<StorageBlockInfo>, c: seq<StorageBlockInfo>, i: nat)
    requires |a| == |c| && forall k :: 0 <= k < |a| ==> a[k].uncompressedSize == c[k].uncompressedSize
    requires PayloadSize(c) <= |payload| && i < |a|
    ensures PayloadSize(a) == PayloadSize(c)
    ensures ChunkInput(payload, a, i) == ChunkInput(payload, c, i)
  {
    SameSizesPayload(a, c);
    SameSizesOffset(a, c, i);
    ChunkInputSlice(payload, a, i);
    ChunkInputSlice(payload, c, i);
  }

  /** Every codec's output for a block under 4 GiB fits a 32-bit size field. */
  lemma EncodedFits(b: Compression.Backends, codec: nat, x: seq<byte>)
    requires |x| < UINT32_LIMIT && Compression.Encoded(b, codec, x).Ok?
    ensures |Compression.Encoded(b, codec, x).value| < UINT32_LIMIT
    ensures codec <= Compression.LZ4HC
  {
    Compression.EncodedShape(b, codec, x);
  }

  /** A piece of bytes laid out at `start` is found again inside the data. */
  lemma SliceWithin(data: seq<byte>, start: nat, whole: seq<byte>, lo: nat, hi: nat)
    requires start + |whole| <= |data| && data[start..start + |whole|] == whole
    requires lo <= hi <= |whole|
    ensures data[start + lo..start + hi] == whole[lo..hi]
  {
    forall k | lo <= k < hi
      ensures data[start + k] == whole[k]
    {
      assert data[start..start + |whole|][k] == data[start + k];
    }
  }

  /** The bytes before `lo`, then those from `lo` to `hi`: the bytes before `hi`. */
  lemma PrefixThenSlice(data: seq<byte>, lo: nat, hi: nat)
    requires lo <= hi <= |data|
    ensures data[..lo] + data[lo..hi] == data[..hi]
  {
    var c := data[..lo] + data[lo..hi];
    forall k | 0 <= k < hi
      ensures c[k] == data[k]
    {
      if k < lo {
        assert c[k] == data[..lo][k];
      } else {
        assert c[k] == data[lo..hi][k - lo];
      }
    }
    assert c == data[..hi];
  }

  /** Dropping the last record moves no earlier block's bytes. */
  lemma ChunkInputInit(payload: seq<byte>, bs: seq<StorageBlockInfo>, i: nat)
    requires PayloadSize(bs) <= |payload| && i + 1 < |bs|
    ensures PayloadSize(bs[..|bs| - 1]) <= PayloadSize(bs)
    ensures ChunkInput(payload, bs[..|bs| - 1], i) == ChunkInput(payload, bs, i)
  {
    var p := bs[..|bs| - 1];
    OffsetIsPayloadSize(bs, |bs| - 1);
    OffsetPrefix(p, bs, i);
    assert p[i] == bs[i];
    ChunkInputSlice(payload, p, i);
    ChunkInputSlice(payload, bs, i);
  }

  /** The blocks laid out at `start`: all but the last, then the last right after them. */
  lemma LastChunkAt(data: seq<byte>, start: nat, chunks: seq<seq<byte>>)
    requires |chunks| > 0
    requires start + |Concat(chunks)| <= |data| && data[start..start + |Concat(chunks)|] == Concat(chunks)
    ensures var front, last := Concat(chunks[..|chunks| - 1]), chunks[|chunks| - 1];
      |Concat(chunks)| == |front| + |last| &&
      data[start..start + |front|] == front &&
      data[start + |front|..start + |front| + |last|] == last
  {
    var n := |chunks| - 1;
    var whole, front := Concat(chunks), Concat(chunks[..n]);
    assert whole == front + chunks[n] by {
      ConcatSnoc(chunks, n);
      assert chunks[..n + 1] == chunks;
    }
    SliceWithin(data, start, whole, 0, |front|);
    SliceWithin(data, start, whole, |front|, |whole|);
  }

  /** Every block but the last still decodes to its bytes once the last record is dropped. */
  lemma DecodesInit(bs: seq<StorageBlockInfo>, chunks: seq<seq<byte>>, payload: seq<byte>, b: Compression.Backends)
    requires |chunks| == |bs| > 0 && PayloadSize(bs) <= |payload|
    requires forall i {:trigger ChunkInput(payload, bs, i)} :: 0 <= i < |bs| ==>
      Compression.Decoded(b, BlockCodec(bs[i]), chunks[i], bs[i].uncompressedSize) == Ok(ChunkInput(payload, bs, i))
    ensures PayloadSize(bs[..|bs| - 1]) <= |payload|
    ensures var p, cs := bs[..|bs| - 1], chunks[..|bs| - 1];
      forall i {:trigger ChunkInput(payload, p, i)} :: 0 <= i < |p| ==>
        Compression.Decoded(b, BlockCodec(p[i]), cs[i], p[i].uncompressedSize) == Ok(ChunkInput(payload, p, i))
  {
    var p, cs := bs[..|bs| - 1], chunks[..|bs| - 1];
    OffsetIsPayloadSize(bs, |bs| - 1);
    forall i | 0 <= i < |p|
      ensures Compression.Decoded(b, BlockCodec(p[i]), cs[i], p[i].uncompressedSize) == Ok(ChunkInput(payload, p, i))
    {
      ChunkInputInit(payload, bs, i);
      assert p[i] == bs[i] && cs[i] == chunks[i];
    }
  }

  /** Records whose stored sizes are the chunks' lengths add up to the chunks laid end to end. */
  lemma {:induction false} StoredSizesChunks(bs: seq<StorageBlockInfo>, chunks: seq<seq<byte>>)
    requires |chunks| == |bs|
    requires forall i :: 0 <= i < |bs| ==> bs[i].compressedSize == |chunks[i]|
    ensures StoredTotal(bs) == |Concat(chunks)|
  {
    if bs != [] {
      var n := |bs| - 1;
      StoredSizesChunks(bs[..n], chunks[..n]);
      ConcatSnoc(chunks, n);
      assert chunks[..n + 1] == chunks;
    }
  }

  /** The payload up to block `n`, then block `n`'s bytes: the payload up to block `n + 1`. */
  lemma PayloadThrough(payload: seq<byte>, bs: seq<StorageBlockInfo>, n: nat)
    requires n < |bs| && PayloadSize(bs) <= |payload|
    ensures PayloadSize(bs[..n]) <= PayloadSize(bs[..n + 1]) <= |payload|
    ensures payload[..PayloadSize(bs[..n])] + ChunkInput(payload, bs, n) == payload[..PayloadSize(bs[..n + 1])]
  {
    var lo, hi := PayloadSize(bs[..n]), PayloadSize(bs[..n + 1]);
    OffsetIsPayloadSize(bs, n);
    PayloadSizePrefix(bs, n);
    ChunkInputSlice(payload, bs, n);
    assert ChunkInput(payload, bs, n) == payload[lo..hi];
    PrefixThenSlice(payload, lo, hi);
  }

  /** The loader's block loop, one block further: `stored`, read right after the blocks before it, decodes to `out`. */
  lemma LastBlockStep(data: seq<byte>, start: nat, bs: seq<StorageBlockInfo>, stored: seq<byte>, out: seq<byte>,
                      prefix: seq<byte>, b: Compression.Backends)
    requires bs != [] && BlocksPayload(data, start, bs[..|bs| - 1], b) == Ok(prefix)
    requires var at := start + StoredTotal(bs[..|bs| - 1]);
      at + |stored| <= |data| && data[at..at + |stored|] == stored && bs[|bs| - 1].compressedSize == |stored|
    requires Compression.Decoded(b, BlockCodec(bs[|bs| - 1]), stored, bs[|bs| - 1].uncompressedSize) == Ok(out)
    requires |out| == bs[|bs| - 1].uncompressedSize
    ensures BlocksPayload(data, start, bs, b) == Ok(prefix + out)
  {
    var n := |bs| - 1;
    assert bs[..n + 1] == bs;
    BlocksPayloadSnoc(data, start, bs, b, n, prefix, out);
    assert Zeros(0) == [];
    assert prefix + out + Zeros(0) == prefix + out;
  }

  /**
   * The loader's block loop over stored blocks laid out one after the other from `start`,
   * each of which decodes to the payload bytes its record spans, gives back that payload.
   */
  lemma {:induction false} ChunksDecode(data: seq<byte>, start: nat, bs: seq<StorageBlockInfo>, chunks: seq<seq<byte>>,
                                        payload: seq<byte>, b: Compression.Backends)
    requires |chunks| == |bs| && PayloadSize(bs) <= |payload|
    requires start + |Concat(chunks)| <= |data| && data[start..start + |Concat(chunks)|] == Concat(chunks)
    requires forall i :: 0 <= i < |bs| ==> bs[i].compressedSize == |chunks[i]|
    requires forall i {:trigger ChunkInput(payload, bs, i)} :: 0 <= i < |bs| ==>
      Compression.Decoded(b, BlockCodec(bs[i]), chunks[i], bs[i].uncompressedSize) == Ok(ChunkInput(payload, bs, i))
    ensures BlocksPayload(data, start, bs, b) == Ok(payload[..PayloadSize(bs)])
  {
    if bs != [] {
      var n := |bs| - 1;
      var p, cs := bs[..n], chunks[..n];
      LastChunkAt(data, start, chunks);
      DecodesInit(bs, chunks, payload, b);
      ChunksDecode(data, start, p, cs, payload, b);
      StoredSizesChunks(p, cs);
      var out := ChunkInput(payload, bs, n);
      assert Compression.Decoded(b, BlockCodec(bs[n]), chunks[n], bs[n].uncompressedSize) == Ok(out);
      LastBlockStep(data, start, bs, chunks[n], out, payload[..PayloadSize(p)], b);
      PayloadThrough(payload, bs, n);
      assert bs[..n + 1] == bs;
    }
  }

  /** The header flags `ToBytes` writes over a loaded header: the LZ4HC metadata tag, every other bit kept. */
  lemma SavedFlags(f: bv32)
    requires f & COMPRESSION_TYPE_MASK == 0
    ensures (f | LZ4HC_FLAGS) & COMPRESSION_TYPE_MASK == 3
    ensures (f | LZ4HC_FLAGS) & BLOCKS_INFO_AT_THE_END == f & BLOCKS_INFO_AT_THE_END
    ensures (f | LZ4HC_FLAGS) & BLOCK_INFO_NEED_PADDING_AT_START == f & BLOCK_INFO_NEED_PADDING_AT_START
    ensures (f | LZ4HC_FLAGS) & UNITY_CN_ENCRYPTION == f & UNITY_CN_ENCRYPTION
    ensures (f | LZ4HC_FLAGS) & !COMPRESSION_TYPE_MASK == f
  {
  }

  /** The tags of the four codecs a record can name. */
  lemma CodecTags()
    ensures CodecTag(0) == 0 && CodecTag(1) == 1 && CodecTag(2) == 2 && CodecTag(3) == 3
  {
  }

  /** A block record tagged over cleared flags, with the loader's 0x100 mask applied, names the codec again. */
  lemma TaggedCodec(blk: StorageBlockInfo, codec: nat)
    requires codec <= Compression.LZ4HC && blk.flags == ((0 as bv16) | CodecTag(codec)) & !0x100
    ensures BlockCodec(blk) == codec
  {
    CodecTags();
    if codec == 0 {
      assert blk.flags == 0;
    } else if codec == 1 {
      assert blk.flags == 1;
    } else if codec == 2 {
      assert blk.flags == 2;
    } else {
      assert blk.flags == 3;
    }
  }

  /** The new header and the bytes that fill exactly the size it declares: a save that succeeds never pads. */
  lemma FinishedExact(header: Header, aligned: bool, pad: bool, atEnd: bool, rawSize: nat, metaBytes: seq<byte>,
                      chunks: seq<seq<byte>>, bytes: seq<byte>, h: Header)
    requires Finished(header, aligned, pad, atEnd, rawSize, metaBytes, |Concat(chunks)|, chunks) == Ok((bytes, h))
    ensures h == SavedHeader(header, aligned, pad, atEnd, rawSize, |metaBytes|, |Concat(chunks)|)
    ensures bytes == Layout(HeaderBytes(h), aligned, pad, atEnd, metaBytes, chunks)
    ensures h.size == |bytes|
  {
    var h' := SavedHeader(header, aligned, pad, atEnd, rawSize, |metaBytes|, |Concat(chunks)|);
    var r := Layout(HeaderBytes(h'), aligned, pad, atEnd, metaBytes, chunks);
    var n := LayoutLength(HeaderSize(header), aligned, pad, atEnd, |metaBytes|, |Concat(chunks)|);
    assert |r| == n && h'.size == n % UINT64_LIMIT;
    assert |r| <= h'.size;
    U64Exact(n);
    assert r + Zeros(0) == r;
  }

  /** Reducing modulo 2^64 never grows a number, and leaves it alone when it is below 2^64. */
  lemma U64Exact(x: nat)
    ensures x % UINT64_LIMIT <= x
    ensures x % UINT64_LIMIT == x <==> x < UINT64_LIMIT
  {
  }

  /** The metadata section and the header `Assembled` writes, and the file they make. */
  lemma AssembledParts(t: BundleState, chunks: seq<seq<byte>>, b: Compression.Backends, bytes: seq<byte>, s': BundleState)
    returns (metaBytes: seq<byte>)
    requires WellFormed(t.meta) && RawSize(t.meta) < UINT32_LIMIT
    requires StoredTotal(t.meta.blocks) == |Concat(chunks)|
    requires Assembled(t, chunks, b) == Ok((bytes, s'))
    ensures Compression.Encoded(b, Compression.LZ4HC, EncodeMetadata(t.meta)) == Ok(metaBytes)
    ensures |metaBytes| < UINT32_LIMIT
    ensures s' == t.(header := s'.header)
    ensures s'.header == SavedHeader(t.header, t.headerAligned, PayloadPadding(t), t.atEnd, RawSize(t.meta),
                                     |metaBytes|, |Concat(chunks)|)
    ensures bytes == Layout(HeaderBytes(s'.header), t.headerAligned, PayloadPadding(t), t.atEnd, metaBytes, chunks)
    ensures s'.header.size == |bytes|
  {
    var raw := EncodeMetadata(t.meta);
    metaBytes := Compression.Encoded(b, Compression.LZ4HC, raw).value;
    EncodedFits(b, Compression.LZ4HC, raw);
    assert EncodedMetadata(t.meta, Compression.LZ4HC, b) == Ok(metaBytes);
    FinishedExact(t.header, t.headerAligned, PayloadPadding(t), t.atEnd, RawSize(t.meta), metaBytes, chunks,
                  bytes, s'.header);
  }

  /** The chunks a successful save compresses: one per record, each the codec's output for its bytes. */
  lemma SavedChunks(s: BundleState, codec: nat, b: Compression.Backends, bytes: seq<byte>, s': BundleState)
    returns (chunks: seq<seq<byte>>)
    requires Saveable(s)
    requires Saved(s, codec, b) == Ok((bytes, s'))
    ensures CompressedChunks(s.payload, SavedBlocks(s, codec), codec, b) == Ok(chunks)
    ensures |chunks| == |SavedBlocks(s, codec)|
    ensures forall i :: 0 <= i < |chunks| ==>
      Compression.Encoded(b, codec, ChunkInput(s.payload, SavedBlocks(s, codec), i)) == Ok(chunks[i]) &&
      |chunks[i]| < UINT32_LIMIT
    ensures chunks != [] ==> codec <= Compression.LZ4HC
    ensures Assembled(s.(meta := s.meta.(blocks := WithStoredSizes(SavedBlocks(s, codec), chunks))), chunks, b)
      == Ok((bytes, s'))
  {
    var sb := SavedBlocks(s, codec);
    chunks := CompressedChunks(s.payload, sb, codec, b).value;
    CompressedChunksMember(s.payload, sb, codec, b, chunks);
    forall i | 0 <= i < |chunks|
      ensures |chunks[i]| < UINT32_LIMIT
    {
      EncodedFits(b, codec, ChunkInput(s.payload, sb, i));
    }
    if chunks != [] {
      EncodedFits(b, codec, ChunkInput(s.payload, sb, 0));
    }
  }

  /** What precedes the blocks: the header, zeros up to `p0`, the metadata up to `p1` unless it goes at the end, zeros. */
  lemma FrontPieces(header: seq<byte>, aligned: bool, pad: bool, atEnd: bool, meta: seq<byte>)
    ensures var f := LayoutFront(header, aligned, pad, atEnd, meta);
      var p0 := |header| + PadTo16(|header|, aligned);
      var p1 := p0 + |Optional(!atEnd, meta)|;
      |f| == p1 + PadTo16(p1, pad) &&
      f[..|header|] == header &&
      (forall k :: |header| <= k < p0 ==> f[k] == 0) &&
      (!atEnd ==> f[p0..p1] == meta)
  {
    var s0 := header + Zeros(PadTo16(|header|, aligned));
    var s1 := s0 + Optional(!atEnd, meta);
    var f := LayoutFront(header, aligned, pad, atEnd, meta);
    assert f == s1 + Zeros(PadTo16(|s1|, pad));
    assert f[..|s1|] == s1;
    forall k | |header| <= k < |s0|
      ensures f[k] == 0
    {
      assert f[k] == s1[k] == s0[k];
    }
    assert f[..|header|] == s1[..|header|] == header;
    assert f[|s0|..|s1|] == s1[|s0|..] == Optional(!atEnd, meta);
  }

  /** The file: what precedes the blocks, the blocks, then the metadata when it goes at the end. */
  lemma LayoutPieces(header: seq<byte>, aligned: bool, pad: bool, atEnd: bool, meta: seq<byte>, chunks: seq<seq<byte>>)
    ensures var r, f := Layout(header, aligned, pad, atEnd, meta, chunks), LayoutFront(header, aligned, pad, atEnd, meta);
      |r| == |f| + |Concat(chunks)| + |Optional(atEnd, meta)| &&
      r[..|f|] == f &&
      r[|f|..|f| + |Concat(chunks)|] == Concat(chunks) &&
      (atEnd ==> r[|r| - |meta|..] == meta)
  {
    var f := LayoutFront(header, aligned, pad, atEnd, meta);
    var r := Layout(header, aligned, pad, atEnd, meta, chunks);
    var c := Concat(chunks);
    assert r == f + c + Optional(atEnd, meta);
    assert r[..|f|] == f;
    assert r[|f|..|f| + |c|] == c;
  }

  /** The loader's alignment step over the written file stops where the writer's header padding ends. */
  lemma AlignReadBack(bytes: seq<byte>, h: Header, aligned: bool, p0: nat)
    requires HeaderSize(h) + PadTo16(HeaderSize(h), aligned) <= |bytes|
    requires forall k :: HeaderSize(h) <= k < HeaderSize(h) + PadTo16(HeaderSize(h), aligned) ==> bytes[k] == 0
    requires h.version >= 7 ==> aligned
    requires h.version < 7 && !(h.engine.major == 2019 && h.engine.minor == 4) ==> !aligned
    requires h.version < 7 && h.engine.major == 2019 && h.engine.minor == 4 && !aligned ==>
      Probe(bytes, HeaderSize(h), 0, 16 - HeaderSize(h) % 16) == Ok(false)
    requires p0 == HeaderSize(h) + PadTo16(HeaderSize(h), aligned)
    ensures HeaderAlign(bytes, HeaderSize(h), h) == Ok((p0, aligned))
  {
    HeaderAlignRule(bytes, HeaderSize(h), h);
  }

  /** The metadata section written before the blocks or at the end is placed, inflated and parsed back to `m`. */
  lemma MetadataReadBack(bytes: seq<byte>, pos: nat, h: Header, b: Compression.Backends, m: Metadata,
                         metaBytes: seq<byte>, atEnd: bool, next: nat)
    requires WellFormed(m) && Compression.RoundTrips(b, Compression.LZ4HC, EncodeMetadata(m))
    requires Compression.Encoded(b, Compression.LZ4HC, EncodeMetadata(m)) == Ok(metaBytes)
    requires h.compressedBlocksInfoSize == |metaBytes| && h.uncompressedBlocksInfoSize == RawSize(m)
    requires MetadataCodec(h) == Compression.LZ4HC
    requires atEnd <==> h.flags & BLOCKS_INFO_AT_THE_END != 0
    requires atEnd ==> h.size == |bytes| && |metaBytes| <= |bytes| && bytes[|bytes| - |metaBytes|..] == metaBytes
    requires !atEnd ==> pos + |metaBytes| <= |bytes| && bytes[pos..pos + |metaBytes|] == metaBytes
    requires next == if atEnd then pos else pos + |metaBytes|
    ensures ReadMetadata(bytes, pos, h, b) == Ok((m, Placement(metaBytes, next, atEnd)))
  {
    var raw := EncodeMetadata(m);
    var p := Placement(metaBytes, next, atEnd);
    if atEnd {
      assert bytes[h.size - h.compressedBlocksInfoSize..h.size] == metaBytes;
    } else {
      assert bytes[pos..pos + h.compressedBlocksInfoSize] == metaBytes;
    }
    assert PlaceMetadata(bytes, pos, h) == Ok(p);
    assert Compression.Decoded(b, Compression.LZ4HC, metaBytes, |raw|) == Ok(raw);
    assert Compression.Decoded(b, MetadataCodec(h), metaBytes, h.uncompressedBlocksInfoSize) == Ok(raw);
    assert Inflated(metaBytes, h, b) == Ok(raw) by {
      assert Zeros(0) == [];
      assert raw + Zeros(h.uncompressedBlocksInfoSize - |raw|) == raw;
    }
    DecodeEncodeMetadata(m);
    assert UnpackMetadata(metaBytes, h, b) == Ok(m);
  }

  lemma U32Exact(x: nat)
    requires x < UINT32_LIMIT
    ensures x % UINT32_LIMIT == x
  {
  }

  /** A record the save wrote, read back with the 0x100 bit cleared: the chunk's length and the block's size. */
  lemma ReadRecord(sb: seq<StorageBlockInfo>, chunks: seq<seq<byte>>, i: nat)
    requires |chunks| == |sb| && i < |sb| && |chunks[i]| < UINT32_LIMIT
    ensures var r := MaskFlags(WithStoredSizes(sb, chunks), !0x100)[i];
      r.compressedSize == |chunks[i]| && r.uncompressedSize == sb[i].uncompressedSize &&
      r.flags == sb[i].flags & !0x100
  {
    var ws := WithStoredSizes(sb, chunks);
    assert ws[i] == sb[i].(compressedSize := |chunks[i]| % UINT32_LIMIT);
    U32Exact(|chunks[i]|);
  }

  /** The tag read back names the codec. */
  lemma ReadTag(blk: StorageBlockInfo, saved: StorageBlockInfo, codec: nat)
    requires codec <= Compression.LZ4HC && saved.flags == (0 as bv16) | CodecTag(codec)
    requires blk.flags == saved.flags & !0x100
    ensures BlockCodec(blk) == codec
  {
    TaggedCodec(blk, codec);
  }

  /**
   * What a save leaves for each block `i`: its record tagged with the codec, its chunk the codec's
   * output for the block's bytes and under 4 GiB, and a codec that gives those bytes back.
   */
  predicate ChunksEncoded(payload: seq<byte>, sb: seq<StorageBlockInfo>, codec: nat, b: Compression.Backends,
                          chunks: seq<seq<byte>>)
  {
    |chunks| == |sb| && PayloadSize(sb) <= |payload| &&
    (forall i :: 0 <= i < |sb| ==> sb[i].flags == (0 as bv16) | CodecTag(codec)) &&
    (forall i {:trigger ChunkInput(payload, sb, i)} :: 0 <= i < |sb| ==>
       Compression.Encoded(b, codec, ChunkInput(payload, sb, i)) == Ok(chunks[i]) && |chunks[i]| < UINT32_LIMIT &&
       Compression.RoundTrips(b, codec, ChunkInput(payload, sb, i))) &&
    (chunks != [] ==> codec <= Compression.LZ4HC)
  }

  /** Every record a save wrote, read back, points at its chunk, names the codec and decodes to its bytes. */
  lemma RecordsReadBack(payload: seq<byte>, sb: seq<StorageBlockInfo>, codec: nat, b: Compression.Backends,
                        chunks: seq<seq<byte>>)
    requires ChunksEncoded(payload, sb, codec, b, chunks)
    ensures var bs := MaskFlags(WithStoredSizes(sb, chunks), !0x100);
      PayloadSize(bs) == PayloadSize(sb) &&
      (forall i :: 0 <= i < |bs| ==> bs[i].compressedSize == |chunks[i]| && BlockCodec(bs[i]) == codec) &&
      forall i {:trigger ChunkInput(payload, bs, i)} :: 0 <= i < |bs| ==>
        Compression.Decoded(b, BlockCodec(bs[i]), chunks[i], bs[i].uncompressedSize) == Ok(ChunkInput(payload, bs, i))
  {
    var ws := WithStoredSizes(sb, chunks);
    var bs := MaskFlags(ws, !0x100);
    assert PayloadSize(bs) == PayloadSize(sb) by {
      MaskFlagsSizes(ws, !0x100);
      WithStoredSizesPayload(sb, chunks);
    }
    forall i | 0 <= i < |bs|
      ensures bs[i].compressedSize == |chunks[i]| && BlockCodec(bs[i]) == codec
      ensures Compression.Decoded(b, BlockCodec(bs[i]), chunks[i], bs[i].uncompressedSize) == Ok(ChunkInput(payload, bs, i))
    {
      var x := ChunkInput(payload, sb, i);
      assert Compression.Encoded(b, codec, x) == Ok(chunks[i]) && Compression.RoundTrips(b, codec, x);
      ReadRecord(sb, chunks, i);
      ReadTag(bs[i], sb[i], codec);
      SameSizesChunkInput(payload, bs, sb, i);
    }
  }

  /** All blocks name the same codec: so does their maximum. */
  lemma MaxCodecUniform(bs: seq<StorageBlockInfo>, codec: nat)
    requires bs != [] && forall i :: 0 <= i < |bs| ==> BlockCodec(bs[i]) == codec
    ensures MaxCodec(bs) == codec
  {
  }

  /**
   * The loader's size check and block loop over the chunks a save wrote, read back through the
   * records it wrote with the 0x100 bit cleared: the payload as it was, and the codec as the tag.
   */
  lemma PayloadReadBack(meta: Metadata, payload: seq<byte>, sb: seq<StorageBlockInfo>, codec: nat,
                        b: Compression.Backends, chunks: seq<seq<byte>>, data: seq<byte>, start: nat)
    requires ChunksEncoded(payload, sb, codec, b, chunks)
    requires |sb| < UINT32_LIMIT && PayloadSize(sb) == |payload| == DirectoriesTotal(meta.dirs)
    requires start + |Concat(chunks)| <= |data| && data[start..start + |Concat(chunks)|] == Concat(chunks)
    ensures var m := meta.(blocks := MaskFlags(WithStoredSizes(sb, chunks), !0x100));
      LoadPayload(data, start, m, b) == Ok(payload) &&
      (chunks != [] ==> MaxCodec(m.blocks) == codec)
  {
    var bs := MaskFlags(WithStoredSizes(sb, chunks), !0x100);
    var m := meta.(blocks := bs);
    RecordsReadBack(payload, sb, codec, b, chunks);
    assert DataSizeOf(m).Ok? by {
      DataSizeRule(m);
    }
    ChunksDecode(data, start, bs, chunks, payload, b);
    assert payload[..PayloadSize(bs)] == payload;
    if chunks != [] {
      MaxCodecUniform(bs, codec);
    }
  }

  /** Clearing every flag bit after clearing some clears them all. */
  lemma MaskFlagsTwice(bs: seq<StorageBlockInfo>, keep: bv16)
    ensures MaskFlags(MaskFlags(bs, keep), 0) == MaskFlags(bs, 0)
  {
    var a, c := MaskFlags(MaskFlags(bs, keep), 0), MaskFlags(bs, 0);
    forall i | 0 <= i < |bs|
      ensures a[i] == c[i]
    {
      assert (bs[i].flags & keep) & 0 == bs[i].flags & 0 == 0;
    }
  }

  /** The header `ToBytes` writes over a loaded one keeps its version, its engine and its size, and records the new section sizes. */
  lemma SavedHeaderSizes(h0: Header, h: Header, aligned: bool, pad: bool, atEnd: bool, rawSize: nat, metaLen: nat,
                         stored: nat)
    requires rawSize < UINT32_LIMIT && metaLen < UINT32_LIMIT
    requires h == SavedHeader(h0, aligned, pad, atEnd, rawSize, metaLen, stored)
    ensures HeaderSize(h) == HeaderSize(h0) && h.version == h0.version && h.engine == h0.engine
    ensures h.compressedBlocksInfoSize == metaLen && h.uncompressedBlocksInfoSize == rawSize
    ensures h.flags == h0.flags | LZ4HC_FLAGS
  {
    U32Exact(rawSize);
    U32Exact(metaLen);
  }


  /** A key the loaded header accepted is accepted by a header with the same mask bits. */
  lemma KeyCarried(h0: Header, h: Header, q: Quirks, key: seq<char>)
    requires q.mask == BLOCK_INFO_NEED_PADDING_AT_START || q.mask == UNITY_CN_ENCRYPTION
    requires h.flags & BLOCK_INFO_NEED_PADDING_AT_START == h0.flags & BLOCK_INFO_NEED_PADDING_AT_START
    requires h.flags & UNITY_CN_ENCRYPTION == h0.flags & UNITY_CN_ENCRYPTION
    requires KeyAccepted(h0, q, key)
    ensures KeyAccepted(h, q, key)
  {
    if q.mask == BLOCK_INFO_NEED_PADDING_AT_START {
      assert h.flags & q.mask == h0.flags & q.mask;
    } else {
      assert h.flags & q.mask == h0.flags & q.mask;
    }
  }

  /** Where the loader finds each part of a file laid out by `Layout`. */
  lemma FileParts(header: seq<byte>, aligned: bool, pad: bool, atEnd: bool, meta: seq<byte>, chunks: seq<seq<byte>>,
                  r: seq<byte>, hs: nat, p0: nat, p1: nat, front: nat)
    requires r == Layout(header, aligned, pad, atEnd, meta, chunks)
    requires hs == |header| && p0 == hs + PadTo16(hs, aligned) && p1 == p0 + |Optional(!atEnd, meta)|
    requires front == |LayoutFront(header, aligned, pad, atEnd, meta)|
    ensures hs <= p0 <= p1 <= front && front + |Concat(chunks)| <= |r|
    ensures r[..hs] == header
    ensures forall k :: hs <= k < p0 ==> r[k] == 0
    ensures !atEnd ==> r[p0..p1] == meta
    ensures atEnd ==> |meta| <= |r| && r[|r| - |meta|..] == meta
    ensures front == p1 + PadTo16(p1, pad)
    ensures r[front..front + |Concat(chunks)|] == Concat(chunks)
  {
    var f := LayoutFront(header, aligned, pad, atEnd, meta);
    LayoutPieces(header, aligned, pad, atEnd, meta, chunks);
    FrontPieces(header, aligned, pad, atEnd, meta);
    assert r[..hs] == f[..hs];
    forall k | hs <= k < p0
      ensures r[k] == 0
    {
      assert r[k] == r[..|f|][k] == f[k];
    }
    if !atEnd {
      assert r[p0..p1] == f[p0..p1];
    }
  }


  /** The last step of the loader: the payload read, the flags cleared and the codec recorded. */
  lemma LoadBlocksStep(bytes: seq<byte>, start: nat, h: Header, q: Quirks, aligned: bool, m: Metadata, atEnd: bool,
                       b: Compression.Backends, payload: seq<byte>)
    requires LoadPayload(bytes, start, m, b) == Ok(payload)
    ensures LoadBlocks(bytes, start, h, q, aligned, m, atEnd, b) ==
      Ok(BundleState(h.(flags := h.flags & !COMPRESSION_TYPE_MASK), m.(blocks := MaskFlags(m.blocks, 0)),
                     payload, MaxCodec(m.blocks), q, aligned, atEnd))
  {
    var loaded := BundleState(h.(flags := h.flags & !COMPRESSION_TYPE_MASK), m.(blocks := MaskFlags(m.blocks, 0)),
                              payload, MaxCodec(m.blocks), q, aligned, atEnd);
    match LoadPayload(bytes, start, m, b)
    case Ok(p) =>
      assert p == payload;
      assert LoadBlocks(bytes, start, h, q, aligned, m, atEnd, b) == Ok(loaded);
  }

  /** The loader after the header alignment, once the metadata is read: the blocks read from behind its padding. */
  lemma LoadBodyStep(bytes: seq<byte>, p0: nat, h: Header, q: Quirks, aligned: bool, b: Compression.Backends,
                     m: Metadata, metaBytes: seq<byte>, p1: nat, atEnd: bool)
    requires ReadMetadata(bytes, p0, h, b) == Ok((m, Placement(metaBytes, p1, atEnd)))
    ensures LoadBody(bytes, p0, h, q, aligned, b) ==
      LoadBlocks(bytes, if q.hasPadding && h.flags & BLOCK_INFO_NEED_PADDING_AT_START != 0 then AlignUp(p1) else p1,
                 h, q, aligned, m.(blocks := MaskFlags(m.blocks, !0x100)), atEnd, b)
  {
  }

  /**
   * The loader after the header alignment, on a metadata section the writer placed at `p0` (or
   * at the end): the metadata read back, then the blocks read from behind its padding.
   */
  lemma BodyReadBack(bytes: seq<byte>, h: Header, q: Quirks, aligned: bool, atEnd: bool, b: Compression.Backends,
                     m: Metadata, metaBytes: seq<byte>, p0: nat, p1: nat)
    requires MetadataCodec(h) == Compression.LZ4HC && (atEnd <==> h.flags & BLOCKS_INFO_AT_THE_END != 0)
    requires WellFormed(m) && Compression.RoundTrips(b, Compression.LZ4HC, EncodeMetadata(m))
    requires Compression.Encoded(b, Compression.LZ4HC, EncodeMetadata(m)) == Ok(metaBytes)
    requires h.compressedBlocksInfoSize == |metaBytes| && h.uncompressedBlocksInfoSize == RawSize(m) &&
             h.size == |bytes|
    requires p1 == p0 + |Optional(!atEnd, metaBytes)| && p1 <= |bytes|
    requires !atEnd ==> bytes[p0..p1] == metaBytes
    requires atEnd ==> |metaBytes| <= |bytes| && bytes[|bytes| - |metaBytes|..] == metaBytes
    ensures LoadBody(bytes, p0, h, q, aligned, b) ==
      LoadBlocks(bytes, if q.hasPadding && h.flags & BLOCK_INFO_NEED_PADDING_AT_START != 0 then AlignUp(p1) else p1,
                 h, q, aligned, m.(blocks := MaskFlags(m.blocks, !0x100)), atEnd, b)
  {
    assert p1 == if atEnd then p0 else p0 + |metaBytes|;
    MetadataReadBack(bytes, p0, h, b, m, metaBytes, atEnd, p1);
    LoadBodyStep(bytes, p0, h, q, aligned, b, m, metaBytes, p1, atEnd);
  }

  /** The loader as a whole: the key accepted, the header aligned, then the body. */
  lemma LoadStep(bytes: seq<byte>, h: Header, key: seq<char>, b: Compression.Backends, p0: nat, aligned: bool)
    requires KeyAccepted(h, QuirkProfile(h.engine), key)
    requires HeaderAlign(bytes, HeaderSize(h), h) == Ok((p0, aligned))
    ensures Load(bytes, HeaderSize(h), h, key, b) == LoadBody(bytes, p0, h, QuirkProfile(h.engine), aligned, b)
  {
  }

  /** A bundle read back from a saved one has the shape of a loaded bundle and can be saved again. */
  lemma LoadedAgain(s: BundleState, ws: seq<StorageBlockInfo>, h: Header, tag: nat)
    requires Saveable(s) && LoadedShape(s)
    requires WellFormed(s.meta.(blocks := ws)) && PayloadSize(ws) == |s.payload|
    requires h.flags & !COMPRESSION_TYPE_MASK == s.header.flags && h.version == s.header.version &&
             h.engine == s.header.engine
    ensures var r := BundleState(h.(flags := h.flags & !COMPRESSION_TYPE_MASK), s.meta.(blocks := MaskFlags(ws, 0)),
                                 s.payload, tag, s.quirks, s.headerAligned, s.atEnd);
      Saveable(r) && LoadedShape(r)
  {
    var m := s.meta.(blocks := MaskFlags(ws, 0));
    MaskFlagsSizes(ws, 0);
    DataSizeRule(s.meta);
    DataSizeRule(m);
    var h' := h.(flags := h.flags & !COMPRESSION_TYPE_MASK);
    assert h'.flags == s.header.flags && h'.engine == s.header.engine && h'.version == s.header.version;
  }

  /**
   * What the loader returns for a saved bundle: the payload, the directory entries and the
   * hash it held, the saved header with the loaded flags, its quirks, the codec as the
   * compression type, and a state that can be saved again.
   */
  predicate ReloadedAs(r: Result<BundleState, BundleError>, s: BundleState, blocks: seq<StorageBlockInfo>, h: Header,
                       codec: nat)
  {
    match r
    case Ok(v) =>
      v.payload == s.payload &&
      v.meta == s.meta.(blocks := MaskFlags(blocks, 0)) &&
      v.header == h.(flags := s.header.flags) &&
      v.quirks == s.quirks && v.headerAligned == s.headerAligned && v.atEnd == s.atEnd &&
      (blocks != [] ==> v.compressionType == codec) &&
      Saveable(v) && LoadedShape(v)
    case Err(_) => false
  }

  /** What `ToBytes` leaves in the block records and chunks: one chunk per record, each the record's slice compressed. */
  predicate BlocksWritten(s: BundleState, codec: nat, b: Compression.Backends, sb: seq<StorageBlockInfo>,
                          chunks: seq<seq<byte>>)
  {
    |chunks| == |sb| < UINT32_LIMIT && PayloadSize(sb) == |s.payload| == DirectoriesTotal(s.meta.dirs) &&
    (forall i :: 0 <= i < |sb| ==> sb[i].flags == (0 as bv16) | CodecTag(codec)) &&
    (forall i {:trigger ChunkInput(s.payload, sb, i)} :: 0 <= i < |sb| ==>
      Compression.Encoded(b, codec, ChunkInput(s.payload, sb, i)) == Ok(chunks[i]) && |chunks[i]| < UINT32_LIMIT) &&
    (chunks != [] ==> codec <= Compression.LZ4HC)
  }

  /** The header `ToBytes` writes over the loaded header `s.header`, for metadata `m` compressed to `metaBytes`. */
  predicate HeaderWritten(s: BundleState, h: Header, m: Metadata, metaBytes: seq<byte>, bytes: seq<byte>)
  {
    HeaderSize(h) == HeaderSize(s.header) && h.version == s.header.version && h.engine == s.header.engine &&
    h.compressedBlocksInfoSize == |metaBytes| && h.uncompressedBlocksInfoSize == RawSize(m) && h.size == |bytes| &&
    MetadataCodec(h) == Compression.LZ4HC &&
    (s.atEnd <==> h.flags & BLOCKS_INFO_AT_THE_END != 0) &&
    (PayloadPadding(s) <==> s.quirks.hasPadding && h.flags & BLOCK_INFO_NEED_PADDING_AT_START != 0) &&
    h.flags & BLOCK_INFO_NEED_PADDING_AT_START == s.header.flags & BLOCK_INFO_NEED_PADDING_AT_START &&
    h.flags & UNITY_CN_ENCRYPTION == s.header.flags & UNITY_CN_ENCRYPTION &&
    h.flags == s.header.flags | LZ4HC_FLAGS
  }

  /**
   * Where the parts lie in the written bytes: zeros up to `p0`, the metadata at `p0..p1` (or at
   * the end), and the chunks from `front` on.
   */
  predicate PartsPlaced(h: Header, aligned: bool, atEnd: bool, pad: bool, metaBytes: seq<byte>,
                        chunks: seq<seq<byte>>, bytes: seq<byte>, p0: nat, p1: nat, front: nat)
  {
    p0 == HeaderSize(h) + PadTo16(HeaderSize(h), aligned) && p1 == p0 + |Optional(!atEnd, metaBytes)| &&
    p1 <= |bytes| && (forall k :: HeaderSize(h) <= k < p0 ==> bytes[k] == 0) &&
    (!atEnd ==> bytes[p0..p1] == metaBytes) &&
    (atEnd ==> |metaBytes| <= |bytes| && bytes[|bytes| - |metaBytes|..] == metaBytes) &&
    front == p1 + PadTo16(p1, pad) &&
    front + |Concat(chunks)| <= |bytes| && bytes[front..front + |Concat(chunks)|] == Concat(chunks)
  }

  /** The library gives back each block's slice of the payload from its compressed form. */
  predicate ChunksRoundTrip(b: Compression.Backends, codec: nat, payload: seq<byte>, sb: seq<StorageBlockInfo>)
  {
    PayloadSize(sb) <= |payload| &&
    forall i {:trigger ChunkInput(payload, sb, i)} :: 0 <= i < |sb| ==>
      Compression.RoundTrips(b, codec, ChunkInput(payload, sb, i))
  }

  /**
   * What `ToBytes` establishes about the bytes it writes: the block records `sb` and chunks, the
   * new metadata `m` and its compressed form, the header `h`, and where each part lies.
   */
  predicate WrittenFacts(s: BundleState, codec: nat, b: Compression.Backends, sb: seq<StorageBlockInfo>,
                         chunks: seq<seq<byte>>, m: Metadata, metaBytes: seq<byte>, bytes: seq<byte>, h: Header,
                         p0: nat, p1: nat, front: nat)
  {
    BlocksWritten(s, codec, b, sb, chunks) &&
    m == s.meta.(blocks := WithStoredSizes(sb, chunks)) && WellFormed(m) &&
    Compression.Encoded(b, Compression.LZ4HC, EncodeMetadata(m)) == Ok(metaBytes) &&
    HeaderWritten(s, h, m, metaBytes, bytes) &&
    PartsPlaced(h, s.headerAligned, s.atEnd, PayloadPadding(s), metaBytes, chunks, bytes, p0, p1, front)
  }

  /** The chunks `BlocksWritten` describes, found at `front`, decode to the payload. */
  lemma WrittenPayloadReadBack(s: BundleState, codec: nat, b: Compression.Backends, sb: seq<StorageBlockInfo>,
                               chunks: seq<seq<byte>>, bytes: seq<byte>, front: nat)
    requires BlocksWritten(s, codec, b, sb, chunks)
    requires ChunksRoundTrip(b, codec, s.payload, sb)
    requires front + |Concat(chunks)| <= |bytes| && bytes[front..front + |Concat(chunks)|] == Concat(chunks)
    ensures LoadPayload(bytes, front, s.meta.(blocks := MaskFlags(WithStoredSizes(sb, chunks), !0x100)), b) ==
      Ok(s.payload)
    ensures chunks != [] ==> MaxCodec(MaskFlags(WithStoredSizes(sb, chunks), !0x100)) == codec
  {
    forall i | 0 <= i < |sb|
      ensures Compression.Encoded(b, codec, ChunkInput(s.payload, sb, i)) == Ok(chunks[i]) &&
              |chunks[i]| < UINT32_LIMIT && Compression.RoundTrips(b, codec, ChunkInput(s.payload, sb, i))
    {
      var x := ChunkInput(s.payload, sb, i);
      assert Compression.Encoded(b, codec, x) == Ok(chunks[i]) && Compression.RoundTrips(b, codec, x);
    }
    assert ChunksEncoded(s.payload, sb, codec, b, chunks);
    PayloadReadBack(s.meta, s.payload, sb, codec, b, chunks, bytes, front);
  }

  /**
   * A 2019.4 file before version 7 whose header is not aligned must not hold only zeros up to the
   * next multiple of 16 after the header, or the loader takes it for an aligned one.
   */
  predicate ProbeClear(bytes: seq<byte>, h: Header, aligned: bool)
  {
    h.version < 7 && h.engine.major == 2019 && h.engine.minor == 4 && !aligned ==>
      Probe(bytes, HeaderSize(h), 0, 16 - HeaderSize(h) % 16) == Ok(false)
  }

  /** The loader, on bytes whose header and parts lie as `ToBytes` writes them, reaches the chunks at `front`. */
  lemma ReloadHead(s: BundleState, codec: nat, key: seq<char>, b: Compression.Backends, sb: seq<StorageBlockInfo>,
                   chunks: seq<seq<byte>>, m: Metadata, metaBytes: seq<byte>, bytes: seq<byte>, h: Header, p0: nat,
                   p1: nat, front: nat, mm: Metadata)
    requires LoadedShape(s) && KeyAccepted(s.header, s.quirks, key)
    requires WrittenFacts(s, codec, b, sb, chunks, m, metaBytes, bytes, h, p0, p1, front)
    requires Compression.RoundTrips(b, Compression.LZ4HC, EncodeMetadata(m))
    requires ProbeClear(bytes, h, s.headerAligned)
    requires mm == m.(blocks := MaskFlags(m.blocks, !0x100))
    ensures Load(bytes, HeaderSize(h), h, key, b) == LoadBlocks(bytes, front, h, s.quirks, s.headerAligned, mm, s.atEnd, b)
  {
    assert QuirkProfile(h.engine) == s.quirks;
    KeyCarried(s.header, h, s.quirks, key);
    AlignReadBack(bytes, h, s.headerAligned, p0);
    LoadStep(bytes, h, key, b, p0, s.headerAligned);
    assert front == if s.quirks.hasPadding && h.flags & BLOCK_INFO_NEED_PADDING_AT_START != 0 then AlignUp(p1) else p1;
    BodyReadBack(bytes, h, s.quirks, s.headerAligned, s.atEnd, b, m, metaBytes, p0, p1);
  }

  /** The loader's last step, on the chunks `ToBytes` wrote at `front`: the payload, the masked records, the codec. */
  lemma ReloadTail(s: BundleState, codec: nat, b: Compression.Backends, sb: seq<StorageBlockInfo>,
                   chunks: seq<seq<byte>>, m: Metadata, metaBytes: seq<byte>, bytes: seq<byte>, h: Header, p0: nat,
                   p1: nat, front: nat, mm: Metadata)
    requires WrittenFacts(s, codec, b, sb, chunks, m, metaBytes, bytes, h, p0, p1, front)
    requires ChunksRoundTrip(b, codec, s.payload, sb)
    requires mm == s.meta.(blocks := MaskFlags(WithStoredSizes(sb, chunks), !0x100))
    ensures LoadBlocks(bytes, front, h, s.quirks, s.headerAligned, mm, s.atEnd, b) ==
      Ok(BundleState(h.(flags := h.flags & !COMPRESSION_TYPE_MASK), mm.(blocks := MaskFlags(mm.blocks, 0)),
                     s.payload, MaxCodec(mm.blocks), s.quirks, s.headerAligned, s.atEnd))
    ensures chunks != [] ==> MaxCodec(mm.blocks) == codec
  {
    WrittenPayloadReadBack(s, codec, b, sb, chunks, bytes, front);
    LoadBlocksStep(bytes, front, h, s.quirks, s.headerAligned, mm, s.atEnd, b, s.payload);
  }

  /** The state the loader rebuilds from a saved bundle is the saved one, and can be saved again. */
  lemma ReloadedState(s: BundleState, codec: nat, b: Compression.Backends, sb: seq<StorageBlockInfo>,
                      chunks: seq<seq<byte>>, m: Metadata, metaBytes: seq<byte>, bytes: seq<byte>, h: Header, p0: nat,
                      p1: nat, front: nat, mm: Metadata, tag: nat)
    requires Saveable(s) && LoadedShape(s)
    requires WrittenFacts(s, codec, b, sb, chunks, m, metaBytes, bytes, h, p0, p1, front)
    requires mm == s.meta.(blocks := MaskFlags(WithStoredSizes(sb, chunks), !0x100))
    requires chunks != [] ==> tag == codec
    ensures ReloadedAs(Ok(BundleState(h.(flags := h.flags & !COMPRESSION_TYPE_MASK), mm.(blocks := MaskFlags(mm.blocks, 0)),
                                      s.payload, tag, s.quirks, s.headerAligned, s.atEnd)),
                       s, m.blocks, h, codec)
  {
    var ws := WithStoredSizes(sb, chunks);
    var v := BundleState(h.(flags := h.flags & !COMPRESSION_TYPE_MASK), mm.(blocks := MaskFlags(mm.blocks, 0)),
                         s.payload, tag, s.quirks, s.headerAligned, s.atEnd);
    MaskFlagsTwice(ws, !0x100);
    SavedFlags(s.header.flags);
    assert v.meta == s.meta.(blocks := MaskFlags(m.blocks, 0));
    assert v.header == h.(flags := s.header.flags);
    WithStoredSizesPayload(sb, chunks);
    LoadedAgain(s, ws, h, tag);
  }

  /** The loader, on bytes `WrittenFacts` describes, gives back the saved bundle. */
  lemma ReloadFromFacts(s: BundleState, codec: nat, b: Compression.Backends, key: seq<char>,
                        sb: seq<StorageBlockInfo>, chunks: seq<seq<byte>>, m: Metadata, metaBytes: seq<byte>,
                        bytes: seq<byte>, h: Header, p0: nat, p1: nat, front: nat)
    requires Saveable(s) && LoadedShape(s) && KeyAccepted(s.header, s.quirks, key)
    requires WrittenFacts(s, codec, b, sb, chunks, m, metaBytes, bytes, h, p0, p1, front)
    requires ChunksRoundTrip(b, codec, s.payload, sb)
    requires Compression.RoundTrips(b, Compression.LZ4HC, EncodeMetadata(m))
    requires ProbeClear(bytes, h, s.headerAligned)
    ensures ReloadedAs(Load(bytes, HeaderSize(h), h, key, b), s, m.blocks, h, codec)
  {
    var mm := s.meta.(blocks := MaskFlags(WithStoredSizes(sb, chunks), !0x100));
    assert mm == m.(blocks := MaskFlags(m.blocks, !0x100));
    ReloadTail(s, codec, b, sb, chunks, m, metaBytes, bytes, h, p0, p1, front, mm);
    ReloadedState(s, codec, b, sb, chunks, m, metaBytes, bytes, h, p0, p1, front, mm, MaxCodec(mm.blocks));
    ReloadHead(s, codec, key, b, sb, chunks, m, metaBytes, bytes, h, p0, p1, front, mm);
  }

  /** The blocks of a loaded bundle carry no flags, so `ToBytes` leaves only the codec tag on each. */
  lemma SavedBlocksTagged(s: BundleState, codec: nat)
    requires Saveable(s) && forall i :: 0 <= i < |s.meta.blocks| ==> s.meta.blocks[i].flags == 0
    ensures forall i :: 0 <= i < |SavedBlocks(s, codec)| ==> SavedBlocks(s, codec)[i].flags == (0 as bv16) | CodecTag(codec)
  {
  }

  /** The header `ToBytes` writes for a loaded bundle, as the loader will meet it. */
  lemma WrittenHeader(s: BundleState, m: Metadata, metaBytes: seq<byte>, bytes: seq<byte>, h: Header, stored: nat)
    requires LoadedShape(s) && RawSize(m) < UINT32_LIMIT && |metaBytes| < UINT32_LIMIT
    requires h == SavedHeader(s.header, s.headerAligned, PayloadPadding(s), s.atEnd, RawSize(m), |metaBytes|, stored)
    requires h.size == |bytes|
    ensures HeaderWritten(s, h, m, metaBytes, bytes)
  {
    SavedHeaderSizes(s.header, h, s.headerAligned, PayloadPadding(s), s.atEnd, RawSize(m), |metaBytes|, stored);
    SavedFlags(s.header.flags);
  }

  /** Where the parts of the layout `ToBytes` writes lie, as the loader will meet them. */
  lemma WrittenParts(h: Header, aligned: bool, pad: bool, atEnd: bool, metaBytes: seq<byte>, chunks: seq<seq<byte>>,
                     bytes: seq<byte>)
    returns (p0: nat, p1: nat, front: nat)
    requires bytes == Layout(HeaderBytes(h), aligned, pad, atEnd, metaBytes, chunks)
    ensures HeaderSize(h) <= |bytes| && bytes[..HeaderSize(h)] == HeaderBytes(h)
    ensures PartsPlaced(h, aligned, atEnd, pad, metaBytes, chunks, bytes, p0, p1, front)
  {
    var hs := HeaderSize(h);
    p0 := hs + PadTo16(hs, aligned);
    p1 := p0 + |Optional(!atEnd, metaBytes)|;
    front := |LayoutFront(HeaderBytes(h), aligned, pad, atEnd, metaBytes)|;
    FileParts(HeaderBytes(h), aligned, pad, atEnd, metaBytes, chunks, bytes, hs, p0, p1, front);
  }

  /** The block records and chunks `ToBytes(codec)` writes for a loaded bundle. */
  lemma SavedBlocksPart(s: BundleState, codec: nat, b: Compression.Backends, bytes: seq<byte>, s': BundleState)
    returns (chunks: seq<seq<byte>>)
    requires Saveable(s) && LoadedShape(s)
    requires Saved(s, codec, b) == Ok((bytes, s'))
    ensures BlocksWritten(s, codec, b, SavedBlocks(s, codec), chunks)
    ensures WellFormed(s.meta.(blocks := WithStoredSizes(SavedBlocks(s, codec), chunks)))
    ensures RawSize(s.meta.(blocks := WithStoredSizes(SavedBlocks(s, codec), chunks))) <= RawSize(s.meta)
    ensures StoredTotal(WithStoredSizes(SavedBlocks(s, codec), chunks)) == |Concat(chunks)|
    ensures Assembled(s.(meta := s.meta.(blocks := WithStoredSizes(SavedBlocks(s, codec), chunks))), chunks, b) ==
      Ok((bytes, s'))
  {
    var sb := SavedBlocks(s, codec);
    chunks := SavedChunks(s, codec, b, bytes, s');
    SavedBlocksTagged(s, codec);
    assert PayloadSize(sb) == |s.payload| == DirectoriesTotal(s.meta.dirs) by {
      DataSizeRule(s.meta);
    }
    WithStoredSizesTotals(sb, chunks);
  }

  /** The header and layout `ToBytes` writes around the chunks, for the bundle `t` with the new block records. */
  lemma SavedLayoutPart(s: BundleState, t: BundleState, chunks: seq<seq<byte>>, b: Compression.Backends,
                        bytes: seq<byte>, s': BundleState)
    returns (metaBytes: seq<byte>, p0: nat, p1: nat, front: nat)
    requires LoadedShape(s) && t == s.(meta := t.meta)
    requires WellFormed(t.meta) && RawSize(t.meta) < UINT32_LIMIT
    requires StoredTotal(t.meta.blocks) == |Concat(chunks)|
    requires Assembled(t, chunks, b) == Ok((bytes, s'))
    ensures s'.meta == t.meta
    ensures Compression.Encoded(b, Compression.LZ4HC, EncodeMetadata(s'.meta)) == Ok(metaBytes)
    ensures HeaderSize(s'.header) <= |bytes| && bytes[..HeaderSize(s'.header)] == HeaderBytes(s'.header)
    ensures HeaderWritten(s, s'.header, s'.meta, metaBytes, bytes)
    ensures PartsPlaced(s'.header, s.headerAligned, s.atEnd, PayloadPadding(s), metaBytes, chunks, bytes, p0, p1, front)
  {
    metaBytes := AssembledParts(t, chunks, b, bytes, s');
    assert PayloadPadding(t) == PayloadPadding(s) && t.header == s.header;
    WrittenHeader(s, t.meta, metaBytes, bytes, s'.header, |Concat(chunks)|);
    p0, p1, front := WrittenParts(s'.header, s.headerAligned, PayloadPadding(s), s.atEnd, metaBytes, chunks, bytes);
  }

  /**
   * What `ToBytes(codec)` establishes about the bytes it writes for a loaded bundle: the block
   * records and chunks, the new metadata and its compressed form, the header, and where each
   * part lies.
   */
  predicate SavedAs(s: BundleState, codec: nat, b: Compression.Backends, bytes: seq<byte>, s': BundleState,
                    sb: seq<StorageBlockInfo>, chunks: seq<seq<byte>>, metaBytes: seq<byte>, p0: nat, p1: nat,
                    front: nat)
  {
    Saveable(s) && sb == SavedBlocks(s, codec) &&
    WrittenFacts(s, codec, b, sb, chunks, s'.meta, metaBytes, bytes, s'.header, p0, p1, front) &&
    HeaderSize(s'.header) <= |bytes| && bytes[..HeaderSize(s'.header)] == HeaderBytes(s'.header)
  }

  /** The facts `ToBytes(codec)` establishes about the bytes it writes for a loaded bundle. */
  lemma SavedPieces(s: BundleState, codec: nat, b: Compression.Backends, bytes: seq<byte>, s': BundleState)
    returns (sb: seq<StorageBlockInfo>, chunks: seq<seq<byte>>, metaBytes: seq<byte>, p0: nat, p1: nat, front: nat)
    requires Saveable(s) && LoadedShape(s) && RawSize(s.meta) < UINT32_LIMIT
    requires Saved(s, codec, b) == Ok((bytes, s'))
    ensures SavedAs(s, codec, b, bytes, s', sb, chunks, metaBytes, p0, p1, front)
  {
    sb := SavedBlocks(s, codec);
    chunks := SavedBlocksPart(s, codec, b, bytes, s');
    var t := s.(meta := s.meta.(blocks := WithStoredSizes(SavedBlocks(s, codec), chunks)));
    metaBytes, p0, p1, front := SavedLayoutPart(s, t, chunks, b, bytes, s');
  }

  /**
   * `ToBytes(codec)` and then `ReadBundleWithHeader` on the file it wrote, from just after the
   * header, give back the payload, the directory entries and the hash of the bundle that was
   * saved, its flags and quirks, and the codec as the compression type. What is loaded can be
   * saved again. The libraries must round-trip each block and the metadata, and a 2019.4 file
   * whose header was not aligned must not start with zeros after the header.
   */
  lemma SaveThenLoad(s: BundleState, codec: nat, b: Compression.Backends, key: seq<char>, bytes: seq<byte>,
                     s': BundleState)
    requires Saveable(s) && LoadedShape(s) && RawSize(s.meta) < UINT32_LIMIT
    requires KeyAccepted(s.header, s.quirks, key)
    requires Saved(s, codec, b) == Ok((bytes, s'))
    requires ChunksRoundTrip(b, codec, s.payload, SavedBlocks(s, codec))
    requires WellFormed(s'.meta) && Compression.RoundTrips(b, Compression.LZ4HC, EncodeMetadata(s'.meta))
    requires ProbeClear(bytes, s'.header, s.headerAligned)
    ensures HeaderSize(s'.header) <= |bytes| && bytes[..HeaderSize(s'.header)] == HeaderBytes(s'.header)
    ensures ReloadedAs(Load(bytes, HeaderSize(s'.header), s'.header, key, b), s, s'.meta.blocks, s'.header, codec)
  {
    var sb, chunks, metaBytes, p0, p1, front := SavedPieces(s, codec, b, bytes, s');
    ReloadFromFacts(s, codec, b, key, sb, chunks, s'.meta, metaBytes, bytes, s'.header, p0, p1, front);
  }
}
