/**
 * `BundleFile`: loading a UnityFS bundle into one contiguous payload and saving it again
 * under another block codec. The header has already been parsed when loading starts; the
 * reader stands just after it.
 */
module Bundle {
  import opened Wrappers
  import opened Bytes
  import opened Cursor
  import opened BundleHeader
  import Compression
  import opened BlocksInfo
  import opened BundleLayout

  /** The exceptions `BundleFile` throws, one per cause. */
  datatype BundleError =
    | EncryptedWithoutKey                       // "File is encrypted but no valid key was provided"
    | HeaderAlignment(cause: CursorError)         // the 2019.4 probe read past the end
    | MetadataError(info: InfoError)             // "Failed to read blocks and directory info"
    | BlockOutOfBounds(index: nat)              // a block's stored bytes run past the input
    | BlockDecompress(codec: Compression.CodecError) // "Failed to decompress blocks"
    | BlockCompress(codec: Compression.CodecError)
    | SaveOverflow                              // the writer ran past the computed size

  /** The version-gated quirks: which flag bit marks encryption and whether pre-payload padding applies. */
  datatype Quirks = Quirks(mask: bv32, hasPadding: bool)

  /** Engine versions up to 2020.3.34, 2021.3.2 and 2022.3.1, and every version before 2020. */
  predicate LegacyLayout(v: EngineVersion)
  {
    v.major < 2020 ||
    (v.major == 2020 && v.minor == 3 && v.patch <= 34) ||
    (v.major == 2021 && v.minor == 3 && v.patch <= 2) ||
    (v.major == 2022 && v.minor == 3 && v.patch <= 1)
  }

  function QuirkProfile(v: EngineVersion): (q: Quirks)
    ensures q.mask == BLOCK_INFO_NEED_PADDING_AT_START || q.mask == UNITY_CN_ENCRYPTION
    ensures q.hasPadding <==> q.mask == UNITY_CN_ENCRYPTION
    ensures q.hasPadding <==> !LegacyLayout(v)
  {
    if LegacyLayout(v) then Quirks(BLOCK_INFO_NEED_PADDING_AT_START, false)
    else Quirks(UNITY_CN_ENCRYPTION, true)
  }

  /** The release boundaries of the legacy layout. */
  lemma QuirkBoundaries(major: int, minor: int, patch: int)
    ensures major >= 2023 ==> QuirkProfile(EngineVersion(major, minor, patch)).hasPadding
    ensures major < 2020 ==> !QuirkProfile(EngineVersion(major, minor, patch)).hasPadding
    ensures minor != 3 && major >= 2020 ==> QuirkProfile(EngineVersion(major, minor, patch)).hasPadding
    ensures major == 2020 && minor == 3 ==> (QuirkProfile(EngineVersion(major, minor, patch)).hasPadding <==> patch > 34)
    ensures major == 2021 && minor == 3 ==> (QuirkProfile(EngineVersion(major, minor, patch)).hasPadding <==> patch > 2)
    ensures major == 2022 && minor == 3 ==> (QuirkProfile(EngineVersion(major, minor, patch)).hasPadding <==> patch > 1)
  {
  }

  /** The encrypted-bundle check: the masked flag needs a 32-character key. */
  predicate KeyAccepted(h: Header, q: Quirks, key: seq<char>)
  {
    h.flags & q.mask == 0 || |key| == 32
  }

  /**
   * The 2019.4 probe: reads bytes `start + i .. start + len` one at a time; a non-zero byte
   * stops it with `false`, running out of input is the reader's error.
   */
  function Probe(data: seq<byte>, start: nat, i: nat, len: nat): Result<bool, CursorError>
    requires i <= len
    decreases len - i
  {
    if i == len then Ok(true)
    else if start + i >= |data| then Err(UnexpectedEndOfData)
    else if data[start + i] != 0 then Ok(false)
    else Probe(data, start, i + 1, len)
  }

  /** The probe accepts exactly a run of `len` zero bytes and rejects at the first non-zero byte. */
  lemma {:induction false} ProbeRule(data: seq<byte>, start: nat, i: nat, len: nat)
    requires i <= len && start + i <= |data|
    requires forall k :: start <= k < start + i ==> data[k] == 0
    ensures Probe(data, start, i, len) == Ok(true) <==>
      (start + len <= |data| && forall k :: start <= k < start + len ==> data[k] == 0)
    ensures Probe(data, start, i, len) == Ok(false) <==>
      (exists k :: start + i <= k < start + len && k < |data| && data[k] != 0 &&
         forall j :: start <= j < k ==> data[j] == 0)
    decreases len - i
  {
    if i < len && start + i < |data| && data[start + i] == 0 {
      ProbeRule(data, start, i + 1, len);
    } else if i < len && start + i < |data| {
      var k := start + i;
      assert start <= k < start + len && k < |data| && data[k] != 0;
      assert forall j :: start <= j < k ==> data[j] == 0;
      assert Probe(data, start, i, len) == Ok(false);
      assert !(start + len <= |data| && forall j :: start <= j < start + len ==> data[j] == 0);
    }
  }

  /** Where the reader stands after the header alignment step, and whether the header counts as aligned. */
  function HeaderAlign(data: seq<byte>, pos: nat, h: Header): Result<(nat, bool), CursorError>
  {
    if h.version >= 7 then Ok((AlignUp(pos), true))
    else if h.engine.major == 2019 && h.engine.minor == 4 then
      match Probe(data, pos, 0, 16 - pos % 16)
      case Err(e) => Err(e)
      case Ok(zeros) => if zeros then Ok((AlignUp(pos), true)) else Ok((pos, false))
    else Ok((pos, false))
  }

  /** Format version 7 and later always aligns; 2019.4 aligns only over zero bytes; others never. */
  lemma HeaderAlignRule(data: seq<byte>, pos: nat, h: Header)
    ensures h.version >= 7 ==> HeaderAlign(data, pos, h) == Ok((AlignUp(pos), true))
    ensures h.version < 7 && !(h.engine.major == 2019 && h.engine.minor == 4) ==>
      HeaderAlign(data, pos, h) == Ok((pos, false))
    ensures h.version < 7 && h.engine.major == 2019 && h.engine.minor == 4 ==>
      (HeaderAlign(data, pos, h) == Ok((AlignUp(pos), true)) <==>
        (AlignUp(pos) <= |data| && forall k :: pos <= k < AlignUp(pos) ==> data[k] == 0))
    ensures HeaderAlign(data, pos, h).Ok? ==>
      var (p, aligned) := HeaderAlign(data, pos, h).value;
      (aligned ==> p == AlignUp(pos)) && (!aligned ==> p == pos)
  {
    if pos <= |data| {
      ProbeRule(data, pos, 0, 16 - pos % 16);
    }
  }

  /** The block flags with `keep` applied, as the two flag loops of the loader do. */
  function MaskFlags(bs: seq<StorageBlockInfo>, keep: bv16): (r: seq<StorageBlockInfo>)
    ensures |r| == |bs|
    ensures forall i :: 0 <= i < |bs| ==>
      r[i] == bs[i].(flags := bs[i].flags & keep)
  {
    seq(|bs|, i requires 0 <= i < |bs| => bs[i].(flags := bs[i].flags & keep))
  }

  /** A block's codec tag, `flags & BlockCompressionTypeMask`. */
  function BlockCodec(blk: StorageBlockInfo): nat
  {
    (blk.flags & 0x3F) as nat
  }

  /** The largest codec tag over the blocks, 0 for none: `mCompressionType`. */
  function MaxCodec(bs: seq<StorageBlockInfo>): (r: nat)
    ensures forall i :: 0 <= i < |bs| ==> BlockCodec(bs[i]) <= r
    ensures bs == [] ==> r == 0
    ensures bs != [] ==> exists i :: 0 <= i < |bs| && BlockCodec(bs[i]) == r
  {
    if bs == [] then 0
    else
      var m := MaxCodec(bs[..|bs| - 1]);
      var t := BlockCodec(bs[|bs| - 1]);
      assert forall i :: 0 <= i < |bs| - 1 ==> bs[..|bs| - 1][i] == bs[i];
      if t > m then t else m
  }

  /**
   * `ReadBlocks`' loop: each block's stored bytes, read at the running reader position, are
   * decoded into the next `uncompressedSize` bytes of the payload. A short LZMA output leaves
   * the rest of its slot zero.
   */
  function BlocksPayload(data: seq<byte>, start: nat, bs: seq<StorageBlockInfo>, b: Compression.Backends)
    : (r: Result<seq<byte>, BundleError>)
    ensures r.Ok? ==> |r.value| == PayloadSize(bs)
  {
    if bs == [] then Ok([])
    else
      match BlocksPayload(data, start, bs[..|bs| - 1], b)
      case Err(e) => Err(e)
      case Ok(prefix) =>
        var blk := bs[|bs| - 1];
        var at := start + StoredTotal(bs[..|bs| - 1]);
        if at + blk.compressedSize > |data| then Err(BlockOutOfBounds(|bs| - 1))
        else
          match Compression.Decoded(b, BlockCodec(blk), data[at..at + blk.compressedSize], blk.uncompressedSize)
          case Err(e) => Err(BlockDecompress(e))
          case Ok(out) => Ok(prefix + out + Zeros(blk.uncompressedSize - |out|))
  }

  /** `ReadBlocks`: the payload is as long as `DataSize()`, or the size check fails first. */
  function LoadPayload(data: seq<byte>, start: nat, m: Metadata, b: Compression.Backends)
    : Result<seq<byte>, BundleError>
  {
    match DataSizeOf(m)
    case Err(e) => Err(MetadataError(e))
    case Ok(_) => BlocksPayload(data, start, m.blocks, b)
  }

  /** What a loaded bundle holds. */
  datatype BundleState = BundleState(
    header: Header,
    meta: Metadata,
    payload: seq<byte>,
    compressionType: nat,
    quirks: Quirks,
    headerAligned: bool,
    atEnd: bool)

  /** `ReadBundleWithHeader` from the reader position `pos` just after the header. */
  function Load(data: seq<byte>, pos: nat, h: Header, key: seq<char>, b: Compression.Backends)
    : Result<BundleState, BundleError>
  {
    var q := QuirkProfile(h.engine);
    if !KeyAccepted(h, q, key) then Err(EncryptedWithoutKey)
    else
      match HeaderAlign(data, pos, h)
      case Err(e) => Err(HeaderAlignment(e))
      case Ok((pos1, aligned)) => LoadBody(data, pos1, h, q, aligned, b)
  }

  /** The rest of the loader once the header is aligned: metadata, flag masks, padding, payload. */
  function LoadBody(data: seq<byte>, pos1: nat, h: Header, q: Quirks, aligned: bool, b: Compression.Backends)
    : Result<BundleState, BundleError>
  {
    match ReadMetadata(data, pos1, h, b)
    case Err(e) => Err(MetadataError(e))
    case Ok((m, p)) =>
      var pos2 := if q.hasPadding && h.flags & BLOCK_INFO_NEED_PADDING_AT_START != 0
                  then AlignUp(p.newPosition) else p.newPosition;
      LoadBlocks(data, pos2, h, q, aligned, m.(blocks := MaskFlags(m.blocks, !0x100)), p.atEnd, b)
  }

  /** The payload read from `pos2` with the 0x100 bit already cleared, then the flags cleared and the tag recorded. */
  function LoadBlocks(data: seq<byte>, pos2: nat, h: Header, q: Quirks, aligned: bool, m: Metadata, atEnd: bool,
                      b: Compression.Backends)
    : Result<BundleState, BundleError>
  {
    match LoadPayload(data, pos2, m, b)
    case Err(e) => Err(e)
    case Ok(payload) =>
      Ok(BundleState(h.(flags := h.flags & !COMPRESSION_TYPE_MASK), m.(blocks := MaskFlags(m.blocks, 0)),
                     payload, MaxCodec(m.blocks), q, aligned, atEnd))
  }

  /** Masking flags leaves the sizes alone. */
  lemma {:induction false} MaskFlagsSizes(bs: seq<StorageBlockInfo>, keep: bv16)
    ensures PayloadSize(MaskFlags(bs, keep)) == PayloadSize(bs)
    ensures StoredTotal(MaskFlags(bs, keep)) == StoredTotal(bs)
  {
    if bs != [] {
      var p := bs[..|bs| - 1];
      assert MaskFlags(bs, keep)[..|bs| - 1] == MaskFlags(p, keep);
      MaskFlagsSizes(p, keep);
    }
  }

  /** `PayloadSize` grows block by block: the bytes before block `i`, then block `i`, fit in the whole. */
  lemma {:induction false} PayloadSizePrefix(bs: seq<StorageBlockInfo>, i: nat)
    requires i < |bs|
    ensures PayloadSize(bs[..i + 1]) == PayloadSize(bs[..i]) + bs[i].uncompressedSize
    ensures PayloadSize(bs[..i + 1]) <= PayloadSize(bs)
    decreases |bs|
  {
    assert bs[..i + 1][..i] == bs[..i];
    if i + 1 < |bs| {
      var p := bs[..|bs| - 1];
      assert p[..i + 1] == bs[..i + 1] && p[..i] == bs[..i];
      PayloadSizePrefix(p, i);
    } else {
      assert bs[..i + 1] == bs;
    }
  }

  /** A failure among the first `i` blocks is the failure of the whole payload. */
  lemma {:induction false} BlocksPayloadErrPrefix(data: seq<byte>, start: nat, bs: seq<StorageBlockInfo>, i: nat, b: Compression.Backends)
    requires i <= |bs| && BlocksPayload(data, start, bs[..i], b).Err?
    ensures BlocksPayload(data, start, bs, b) == BlocksPayload(data, start, bs[..i], b)
    decreases |bs|
  {
    if i < |bs| {
      var p := bs[..|bs| - 1];
      assert p[..i] == bs[..i];
      BlocksPayloadErrPrefix(data, start, p, i, b);
    } else {
      assert bs[..i] == bs;
    }
  }

  /** What the block loop has established after `i` turns. */
  ghost predicate BlocksReadSoFar(data: seq<byte>, start: nat, bs: seq<StorageBlockInfo>, b: Compression.Backends,
                                  i: nat, pos: nat, offset: nat, contents: seq<byte>, maxTag: nat)
  {
    i <= |bs| && pos == start + StoredTotal(bs[..i]) && offset == PayloadSize(bs[..i]) &&
    |contents| == PayloadSize(bs) && offset <= |contents| &&
    BlocksPayload(data, start, bs[..i], b) == Ok(contents[..offset]) &&
    (forall k :: offset <= k < |contents| ==> contents[k] == 0) &&
    maxTag == MaxCodec(bs[..i])
  }

  lemma BlocksLoopInit(data: seq<byte>, start: nat, bs: seq<StorageBlockInfo>, b: Compression.Backends, contents: seq<byte>)
    requires |contents| == PayloadSize(bs) && forall k :: 0 <= k < |contents| ==> contents[k] == 0
    ensures BlocksReadSoFar(data, start, bs, b, 0, start, 0, contents, 0)
  {
    assert bs[..0] == [];
  }

  /** The block `i` whose stored bytes lie at `pos`: the same in `bs[..i + 1]` as in the loop. */
  lemma BlocksPayloadLast(data: seq<byte>, start: nat, bs: seq<StorageBlockInfo>, b: Compression.Backends, i: nat)
    requires i < |bs|
    ensures var q := bs[..i + 1];
      q[..|q| - 1] == bs[..i] && q[|q| - 1] == bs[i] && |q| - 1 == i
  {
  }

  lemma BlocksLoopOutOfBounds(data: seq<byte>, start: nat, bs: seq<StorageBlockInfo>, b: Compression.Backends,
                              i: nat, pos: nat, offset: nat, contents: seq<byte>, maxTag: nat)
    requires BlocksReadSoFar(data, start, bs, b, i, pos, offset, contents, maxTag)
    requires i < |bs| && pos + bs[i].compressedSize > |data|
    ensures BlocksPayload(data, start, bs, b) == Err(BlockOutOfBounds(i))
  {
    BlocksPayloadLast(data, start, bs, b, i);
    assert BlocksPayload(data, start, bs[..i + 1], b) == Err(BlockOutOfBounds(i));
    BlocksPayloadErrPrefix(data, start, bs, i + 1, b);
  }

  /** `BlocksLoopDecodeFail` for block `blk` with codec `tag` and stored bytes `stored`. */
  lemma DecodeFailAt(data: seq<byte>, start: nat, bs: seq<StorageBlockInfo>, b: Compression.Backends,
                     i: nat, pos: nat, offset: nat, contents: seq<byte>, maxTag: nat,
                     blk: StorageBlockInfo, tag: nat, stored: seq<byte>, spec: Result<seq<byte>, Compression.CodecError>)
    requires BlocksReadSoFar(data, start, bs, b, i, pos, offset, contents, maxTag)
    requires i < |bs| && blk == bs[i] && tag == BlockCodec(blk) && pos + blk.compressedSize <= |data|
    requires stored == data[pos..pos + blk.compressedSize]
    requires spec == Compression.Decoded(b, tag, stored, blk.uncompressedSize) && spec.Err?
    ensures BlocksPayload(data, start, bs, b) == Err(BlockDecompress(spec.error))
  {
    BlocksLoopDecodeFail(data, start, bs, b, i, pos, offset, contents, maxTag);
  }

  /** `BlocksLoopStep` for block `blk` with codec `tag`, stored bytes `stored` and new contents `next`. */
  lemma DecodeStepAt(data: seq<byte>, start: nat, bs: seq<StorageBlockInfo>, b: Compression.Backends,
                     i: nat, pos: nat, offset: nat, prefix: seq<byte>, maxTag: nat,
                     blk: StorageBlockInfo, tag: nat, stored: seq<byte>, spec: Result<seq<byte>, Compression.CodecError>,
                     next: seq<byte>, offset': nat, maxTag': nat)
    requires i < |bs| && pos == start + StoredTotal(bs[..i]) && offset == PayloadSize(bs[..i])
    requires BlocksPayload(data, start, bs[..i], b) == Ok(prefix) && maxTag == MaxCodec(bs[..i])
    requires blk == bs[i] && tag == BlockCodec(blk) && pos + blk.compressedSize <= |data|
    requires stored == data[pos..pos + blk.compressedSize]
    requires spec == Compression.Decoded(b, tag, stored, blk.uncompressedSize) && spec.Ok?
    requires |next| == PayloadSize(bs) && offset' == offset + blk.uncompressedSize && offset' <= |next|
    requires next[..offset'] == prefix + spec.value + Zeros(blk.uncompressedSize - |spec.value|)
    requires forall k :: offset' <= k < |next| ==> next[k] == 0
    requires maxTag' == if tag > maxTag then tag else maxTag
    ensures BlocksReadSoFar(data, start, bs, b, i + 1, pos + blk.compressedSize, offset', next, maxTag')
  {
    BlocksPayloadSnoc(data, start, bs, b, i, prefix, spec.value);
    PayloadSizePrefix(bs, i);
  }

  /** The slot of block `i` lies inside the payload, which is still zero from there on. */
  lemma SlotReady(data: seq<byte>, start: nat, bs: seq<StorageBlockInfo>, b: Compression.Backends,
                  i: nat, pos: nat, offset: nat, contents: seq<byte>, maxTag: nat)
    requires BlocksReadSoFar(data, start, bs, b, i, pos, offset, contents, maxTag) && i < |bs|
    ensures offset + bs[i].uncompressedSize <= |contents|
    ensures forall k :: offset <= k < |contents| ==> contents[k] == 0
  {
    PayloadSizePrefix(bs, i);
  }

  lemma BlocksLoopDecodeFail(data: seq<byte>, start: nat, bs: seq<StorageBlockInfo>, b: Compression.Backends,
                             i: nat, pos: nat, offset: nat, contents: seq<byte>, maxTag: nat)
    requires BlocksReadSoFar(data, start, bs, b, i, pos, offset, contents, maxTag)
    requires i < |bs| && pos + bs[i].compressedSize <= |data|
    requires Compression.Decoded(b, BlockCodec(bs[i]), data[pos..pos + bs[i].compressedSize], bs[i].uncompressedSize).Err?
    ensures BlocksPayload(data, start, bs, b) ==
      Err(BlockDecompress(Compression.Decoded(b, BlockCodec(bs[i]), data[pos..pos + bs[i].compressedSize], bs[i].uncompressedSize).error))
  {
    BlocksPayloadLast(data, start, bs, b, i);
    BlocksPayloadErrPrefix(data, start, bs, i + 1, b);
  }

  /** One more block decoded behind the `i` already in `prefix`. */
  lemma BlocksPayloadSnoc(data: seq<byte>, start: nat, bs: seq<StorageBlockInfo>, b: Compression.Backends,
                          i: nat, prefix: seq<byte>, out: seq<byte>)
    requires i < |bs| && BlocksPayload(data, start, bs[..i], b) == Ok(prefix)
    requires start + StoredTotal(bs[..i]) + bs[i].compressedSize <= |data|
    requires var at := start + StoredTotal(bs[..i]);
      Compression.Decoded(b, BlockCodec(bs[i]), data[at..at + bs[i].compressedSize], bs[i].uncompressedSize) == Ok(out)
    ensures BlocksPayload(data, start, bs[..i + 1], b) == Ok(prefix + out + Zeros(bs[i].uncompressedSize - |out|))
    ensures StoredTotal(bs[..i + 1]) == StoredTotal(bs[..i]) + bs[i].compressedSize
    ensures MaxCodec(bs[..i + 1]) == if BlockCodec(bs[i]) > MaxCodec(bs[..i]) then BlockCodec(bs[i]) else MaxCodec(bs[..i])
  {
    BlocksPayloadLast(data, start, bs, b, i);
  }


  /** Writing `out` at `offset` over a zero tail leaves the slot as `out` padded with zeros. */
  lemma SlotFilled(contents: seq<byte>, offset: nat, out: seq<byte>, width: nat, next: seq<byte>)
    requires |out| <= width && offset + width <= |contents|
    requires forall k :: offset <= k < |contents| ==> contents[k] == 0
    requires next == contents[..offset] + out + contents[offset + |out|..]
    ensures |next| == |contents|
    ensures next[..offset + width] == contents[..offset] + out + Zeros(width - |out|)
    ensures forall k :: offset + width <= k < |next| ==> next[k] == 0
  {
    var slot := offset + width;
    assert next[offset..slot] == out + Zeros(width - |out|) by {
      assert next[offset..offset + |out|] == out;
      assert forall k :: offset + |out| <= k < slot ==> next[k] == contents[k];
    }
    assert next[..slot] == contents[..offset] + next[offset..slot];
  }

  lemma BlocksLoopDone(data: seq<byte>, start: nat, bs: seq<StorageBlockInfo>, b: Compression.Backends,
                       pos: nat, offset: nat, contents: seq<byte>, maxTag: nat)
    requires BlocksReadSoFar(data, start, bs, b, |bs|, pos, offset, contents, maxTag)
    ensures BlocksPayload(data, start, bs, b) == Ok(contents) && maxTag == MaxCodec(bs)
  {
    assert bs[..|bs|] == bs;
    assert contents[..offset] == contents;
  }

  /** A loaded bundle's state as `ToBytes` finds it: serialisable metadata and a payload the blocks cover. */
  predicate Saveable(s: BundleState)
  {
    WellFormed(s.meta) && |s.payload| == PayloadSize(s.meta.blocks)
  }

  /** The codec as the 16-bit `StorageBlockFlags` it is OR-ed into. */
  function CodecTag(codec: nat): bv16
  {
    (codec % 0x1_0000) as bv16
  }

  /** The block records `ToBytes(codec)` compresses: re-chunked for LZMA, then tagged with the codec. */
  function SavedBlocks(s: BundleState, codec: nat): (r: seq<StorageBlockInfo>)
    requires Saveable(s)
    ensures PayloadSize(r) == |s.payload| && |r| <= |s.meta.blocks|
    ensures codec != Compression.LZMA ==> |r| == |s.meta.blocks|
    ensures forall i :: 0 <= i < |r| ==> r[i].flags == s.meta.blocks[i].flags | CodecTag(codec)
  {
    var bs := s.meta.blocks;
    var resized :=
      if codec == Compression.LZMA then
        BlocksTotalExact(bs);
        ChunkCountFits(|bs|, |s.payload|);
        RechunkedCovers(bs, |s.payload|);
        Rechunked(bs, |s.payload|)
      else bs;
    TagFlagsSize(resized, CodecTag(codec));
    TagFlags(resized, CodecTag(codec))
  }

  /** The compressed blocks: block `i` is the payload slice its `uncompressedSize` spans, compressed with `codec`. */
  function CompressedChunks(payload: seq<byte>, bs: seq<StorageBlockInfo>, codec: nat, b: Compression.Backends)
    : (r: Result<seq<seq<byte>>, BundleError>)
    requires PayloadSize(bs) <= |payload|
    ensures r.Ok? ==> |r.value| == |bs|
  {
    if bs == [] then Ok([])
    else
      var n := |bs| - 1;
      PayloadSizePrefix(bs, n);
      assert bs[..n + 1] == bs;
      match CompressedChunks(payload, bs[..n], codec, b)
      case Err(e) => Err(e)
      case Ok(prefix) =>
        var p := PayloadSize(bs[..n]);
        match Compression.Encoded(b, codec, payload[p..p + bs[n].uncompressedSize])
        case Err(e) => Err(BlockCompress(e))
        case Ok(c) => Ok(prefix + [c])
  }

  /** `ToBytes(codec)` on a loaded bundle: the file's bytes and the state it leaves. */
  function Saved(s: BundleState, codec: nat, b: Compression.Backends): Result<(seq<byte>, BundleState), BundleError>
    requires Saveable(s)
  {
    var bs := SavedBlocks(s, codec);
    match CompressedChunks(s.payload, bs, codec, b)
    case Err(e) => Err(e)
    case Ok(chunks) =>
      WithStoredSizesPayload(bs, chunks);
      Assembled(s.(meta := s.meta.(blocks := WithStoredSizes(bs, chunks))), chunks, b)
  }

  /** Whether the payload padding is written: the version quirk and the header flag. */
  function PayloadPadding(s: BundleState): bool
  {
    s.quirks.hasPadding && s.header.flags & BLOCK_INFO_NEED_PADDING_AT_START != 0
  }

  /**
   * The rest of `ToBytes` once the blocks are compressed and their sizes recorded: the metadata
   * compressed with LZ4HC, the new header, then the bytes written.
   */
  function Assembled(s: BundleState, chunks: seq<seq<byte>>, b: Compression.Backends)
    : Result<(seq<byte>, BundleState), BundleError>
    requires WellFormed(s.meta)
  {
    match EncodedMetadata(s.meta, Compression.LZ4HC, b)
    case Err(e) => Err(MetadataError(e))
    case Ok(metaBytes) =>
      match Finished(s.header, s.headerAligned, PayloadPadding(s), s.atEnd, RawSize(s.meta), metaBytes,
                     StoredTotal(s.meta.blocks), chunks)
      case Err(e) => Err(e)
      case Ok((bytes, h)) => Ok((bytes, s.(header := h)))
  }

  /**
   * The header `ToBytes` writes: both metadata sizes as `uint32_t`, the total size as a
   * `uint64_t` (wrapping each addition is the same as wrapping the sum) and the LZ4HC flag bits.
   */
  function SavedHeader(h: Header, aligned: bool, pad: bool, atEnd: bool, rawSize: nat, metaLen: nat, stored: nat)
    : (r: Header)
    ensures HeaderSize(r) == HeaderSize(h)
  {
    var h0 := h.(uncompressedBlocksInfoSize := rawSize % UINT32_LIMIT, compressedBlocksInfoSize := metaLen % UINT32_LIMIT);
    h0.(size := LayoutLength(HeaderSize(h0), aligned, pad, atEnd, metaLen, stored) % UINT64_LIMIT,
        flags := h0.flags | LZ4HC_FLAGS)
  }

  /** The new header, then the writes into a `ByteArr` of its `mSize` bytes; running past its end fails. */
  function Finished(header: Header, aligned: bool, pad: bool, atEnd: bool, rawSize: nat, metaBytes: seq<byte>,
                    stored: nat, chunks: seq<seq<byte>>): Result<(seq<byte>, Header), BundleError>
  {
    var h := SavedHeader(header, aligned, pad, atEnd, rawSize, |metaBytes|, stored);
    var bytes := Layout(HeaderBytes(h), aligned, pad, atEnd, metaBytes, chunks);
    if |bytes| > h.size then Err(SaveOverflow)
    else Ok((bytes + Zeros(h.size - |bytes|), h))
  }

  /** `CompressionType::Lz4HC` as the header flag bits `ToBytes` sets. */
  const LZ4HC_FLAGS: bv32 := 3

  /** A failure among the first `i` blocks is the failure of the whole compression. */
  lemma {:induction false} CompressedChunksErrPrefix(payload: seq<byte>, bs: seq<StorageBlockInfo>, i: nat, codec: nat,
                                                     b: Compression.Backends)
    requires i <= |bs| && PayloadSize(bs) <= |payload|
    requires PayloadSize(bs[..i]) <= |payload| && CompressedChunks(payload, bs[..i], codec, b).Err?
    ensures CompressedChunks(payload, bs, codec, b) == CompressedChunks(payload, bs[..i], codec, b)
    decreases |bs|
  {
    if i < |bs| {
      var p := bs[..|bs| - 1];
      assert p[..i] == bs[..i];
      PayloadSizePrefix(bs, |bs| - 1);
      assert bs[..|bs|] == bs;
      CompressedChunksErrPrefix(payload, p, i, codec, b);
    } else {
      assert bs[..i] == bs;
    }
  }

  /** One more block compressed: the chunks of `bs[..i + 1]` from those of `bs[..i]`. */
  lemma CompressedChunksSnoc(payload: seq<byte>, bs: seq<StorageBlockInfo>, i: nat, codec: nat, b: Compression.Backends,
                             prefix: seq<seq<byte>>, c: Result<seq<byte>, Compression.CodecError>)
    requires i < |bs| && PayloadSize(bs[..i + 1]) == PayloadSize(bs[..i]) + bs[i].uncompressedSize
    requires PayloadSize(bs[..i + 1]) <= |payload|
    requires CompressedChunks(payload, bs[..i], codec, b) == Ok(prefix)
    requires var p := PayloadSize(bs[..i]);
      c == Compression.Encoded(b, codec, payload[p..p + bs[i].uncompressedSize])
    ensures c.Err? ==> CompressedChunks(payload, bs[..i + 1], codec, b) == Err(BlockCompress(c.error))
    ensures c.Ok? ==> CompressedChunks(payload, bs[..i + 1], codec, b) == Ok(prefix + [c.value])
  {
    var q := bs[..i + 1];
    assert q[..|q| - 1] == bs[..i] && q[|q| - 1] == bs[i];
  }

  /** What the compression loop has established after `i` turns, with `cur` the record array. */
  ghost predicate CompressedSoFar(payload: seq<byte>, bs: seq<StorageBlockInfo>, codec: nat, b: Compression.Backends,
                                  i: nat, p: nat, chunks: seq<seq<byte>>, cur: seq<StorageBlockInfo>)
  {
    i <= |bs| <= |cur| && PayloadSize(bs) <= |payload| &&
    p == PayloadSize(bs[..i]) && p <= PayloadSize(bs) &&
    CompressedChunks(payload, bs[..i], codec, b) == Ok(chunks) &&
    (forall k :: 0 <= k < i ==> cur[k] == bs[k].(compressedSize := |chunks[k]| % UINT32_LIMIT)) &&
    (forall k :: i <= k < |bs| ==> cur[k] == bs[k])
  }

  lemma CompressLoopInit(payload: seq<byte>, bs: seq<StorageBlockInfo>, codec: nat, b: Compression.Backends,
                         cur: seq<StorageBlockInfo>)
    requires PayloadSize(bs) <= |payload| && |bs| <= |cur| && cur[..|bs|] == bs
    ensures CompressedSoFar(payload, bs, codec, b, 0, 0, [], cur)
  {
    assert bs[..0] == [];
    assert forall k :: 0 <= k < |bs| ==> cur[k] == cur[..|bs|][k];
  }

  lemma CompressLoopStep(payload: seq<byte>, bs: seq<StorageBlockInfo>, codec: nat, b: Compression.Backends,
                         i: nat, p: nat, chunks: seq<seq<byte>>, cur: seq<StorageBlockInfo>, c: seq<byte>,
                         next: seq<StorageBlockInfo>)
    requires i < |bs| && CompressedSoFar(payload, bs, codec, b, i, p, chunks, cur)
    requires PayloadSize(bs[..i + 1]) == p + bs[i].uncompressedSize && PayloadSize(bs[..i + 1]) <= PayloadSize(bs)
    requires CompressedChunks(payload, bs[..i + 1], codec, b) == Ok(chunks + [c])
    requires next == cur[i := cur[i].(compressedSize := |c| % UINT32_LIMIT)]
    ensures CompressedSoFar(payload, bs, codec, b, i + 1, p + bs[i].uncompressedSize, chunks + [c], next)
  {
  }

  lemma CompressLoopDone(payload: seq<byte>, bs: seq<StorageBlockInfo>, codec: nat, b: Compression.Backends,
                         p: nat, chunks: seq<seq<byte>>, cur: seq<StorageBlockInfo>)
    requires CompressedSoFar(payload, bs, codec, b, |bs|, p, chunks, cur)
    ensures CompressedChunks(payload, bs, codec, b) == Ok(chunks)
    ensures cur[..|bs|] == WithStoredSizes(bs, chunks)
  {
    assert bs[..|bs|] == bs;
  }

  class BundleFile {
    var header: Header                  // mHeader
    var info: BlocksAndDirectoryInfo    // mDataInfo
    var payload: array<byte>            // data
    var compressionType: nat            // mCompressionType
    var quirks: Quirks                  // mask, HasBlockInfoNeedPaddingAtStart
    var headerAligned: bool             // HeaderAligned
    var atEnd: bool                     // BlocksInfoAtTheEnd
    const key: seq<char>                // mUnityCNKey

    ghost predicate Valid()
      reads this, info, info.blocks
    {
      info.Valid() && payload.Length == PayloadSize(info.Value().blocks)
    }

    ghost function State(): BundleState
      reads this, info, info.blocks, payload
      requires Valid()
    {
      BundleState(header, info.Value(), payload[..], compressionType, quirks, headerAligned, atEnd)
    }

    constructor (header: Header, info: BlocksAndDirectoryInfo, payload: array<byte>, compressionType: nat,
                 quirks: Quirks, headerAligned: bool, atEnd: bool, key: seq<char>)
      requires info.Valid() && payload.Length == PayloadSize(info.Value().blocks)
      ensures Valid() && this.info == info && this.payload == payload && this.key == key
      ensures State() == BundleState(header, info.Value(), payload[..], compressionType, quirks, headerAligned, atEnd)
    {
      this.header := header;
      this.info := info;
      this.payload := payload;
      this.compressionType := compressionType;
      this.quirks := quirks;
      this.headerAligned := headerAligned;
      this.atEnd := atEnd;
      this.key := key;
    }

    /**
     * The constructor `BundleFile(data, key)` once the header is parsed: `ReadBundleWithHeader`
     * from the reader position just after the header.
     */
    static method Open(reader: Reader, h: Header, key: seq<char>, b: Compression.Backends)
      returns (r: Result<BundleFile, BundleError>)
      modifies reader
      ensures var spec := Load(reader.data, old(reader.position), h, key, b);
        (r.Ok? <==> spec.Ok?) && (r.Err? ==> r.error == spec.error) &&
        (r.Ok? ==> fresh(r.value) && fresh(r.value.info) && r.value.Valid() && r.value.State() == spec.value)
    {
      ghost var spec := Load(reader.data, reader.position, h, key, b);
      var q := QuirkProfile(h.engine);
      if h.flags & q.mask != 0 && |key| != 32 {
        assert spec == Err(EncryptedWithoutKey);
        return Err(EncryptedWithoutKey);
      }
      assert KeyAccepted(h, q, key);
      ghost var align := HeaderAlign(reader.data, reader.position, h);
      var aligned := AlignHeader(reader, h);
      if aligned.Err? {
        assert spec == Err(HeaderAlignment(aligned.error));
        return Err(HeaderAlignment(aligned.error));
      }
      assert align == Ok((reader.position, aligned.value));
      assert spec == LoadBody(reader.data, reader.position, h, q, aligned.value, b);
      r := ReadBody(reader, h, q, aligned.value, key, b);
    }

    /** Everything after the header alignment: the metadata, the flag masks, the padding and the blocks. */
    static method ReadBody(reader: Reader, h: Header, q: Quirks, aligned: bool, key: seq<char>, b: Compression.Backends)
      returns (r: Result<BundleFile, BundleError>)
      modifies reader
      ensures var spec := LoadBody(reader.data, old(reader.position), h, q, aligned, b);
        (r.Ok? <==> spec.Ok?) && (r.Err? ==> r.error == spec.error) &&
        (r.Ok? ==> fresh(r.value) && fresh(r.value.info) && r.value.Valid() && r.value.State() == spec.value)
    {
      var infoR, blocksAtEnd := BlocksAndDirectoryInfo.Read(reader, h, b);
      if infoR.Err? {
        return Err(MetadataError(infoR.error));
      }
      var info := infoR.value;
      MaskBlockFlags(info, !0x100);
      if q.hasPadding && h.flags & BLOCK_INFO_NEED_PADDING_AT_START != 0 {
        reader.Align();
      }
      r := ReadPayload(reader, info, h, q, aligned, blocksAtEnd, key, b);
    }

    /** `ReadBlocks`, the final flag loop and the header flag update. */
    static method ReadPayload(reader: Reader, info: BlocksAndDirectoryInfo, h: Header, q: Quirks, aligned: bool,
                              atEnd: bool, key: seq<char>, b: Compression.Backends)
      returns (r: Result<BundleFile, BundleError>)
      requires info.Valid()
      modifies reader, info.blocks
      ensures var spec := LoadBlocks(reader.data, old(reader.position), h, q, aligned, old(info.Value()), atEnd, b);
        (r.Ok? <==> spec.Ok?) && (r.Err? ==> r.error == spec.error) &&
        (r.Ok? ==> fresh(r.value) && r.value.info == info && r.value.Valid() && r.value.State() == spec.value)
    {
      ghost var m := info.Value();
      ghost var spec := LoadBlocks(reader.data, reader.position, h, q, aligned, m, atEnd, b);
      var payload, maxTag := ReadBlocks(reader, info, b);
      if payload.Err? {
        return Err(payload.error);
      }
      MaskFlagsSizes(m.blocks, 0);
      MaskBlockFlags(info, 0);
      assert info.Value() == m.(blocks := MaskFlags(m.blocks, 0));
      var bundle := new BundleFile(h.(flags := h.flags & !COMPRESSION_TYPE_MASK), info, payload.value, maxTag,
                                   q, aligned, atEnd, key);
      r := Ok(bundle);
    }

    /** The header alignment step, with the 2019.4 byte-by-byte probe. */
    static method AlignHeader(reader: Reader, h: Header) returns (r: Result<bool, CursorError>)
      modifies reader
      ensures var spec := HeaderAlign(reader.data, old(reader.position), h);
        (r.Ok? <==> spec.Ok?) && (r.Err? ==> r.error == spec.error) &&
        (r.Ok? ==> r.value == spec.value.1 && reader.position == spec.value.0)
    {
      if h.version >= 7 {
        reader.Align();
        return Ok(true);
      }
      if h.engine.major == 2019 && h.engine.minor == 4 {
        var pos := reader.position;
        var len := 16 - pos % 16;
        var i := 0;
        while i < len
          invariant 0 <= i <= len && reader.position == pos + i
          invariant Probe(reader.data, pos, 0, len) == Probe(reader.data, pos, i, len)
        {
          var c := reader.ReadByte();
          if c.Err? {
            return Err(c.error);
          }
          if c.value != 0 {
            reader.position := pos;
            return Ok(false);
          }
          i := i + 1;
        }
        return Ok(true);
      }
      return Ok(false);
    }

    /** The flag loops of the loader: every block's flags are masked with `keep`. */
    static method MaskBlockFlags(info: BlocksAndDirectoryInfo, keep: bv16)
      requires info.Valid()
      modifies info.blocks
      ensures info.Valid() && info.Value() == old(info.Value()).(blocks := MaskFlags(old(info.Value().blocks), keep))
    {
      ghost var bs := info.Value().blocks;
      ghost var masked := MaskFlags(bs, keep);
      for i := 0 to info.blocksCount
        invariant forall k :: 0 <= k < i ==> info.blocks[k] == masked[k]
        invariant forall k :: i <= k < info.blocksCount ==> info.blocks[k] == bs[k]
      {
        info.blocks[i] := info.blocks[i].(flags := info.blocks[i].flags & keep);
      }
      assert info.blocks[..info.blocksCount] == masked;
    }

    /** `ReadBlocks`: a `DataSize()` payload filled block by block. */
    static method ReadBlocks(reader: Reader, info: BlocksAndDirectoryInfo, b: Compression.Backends)
      returns (r: Result<array<byte>, BundleError>, maxTag: nat)
      requires info.Valid()
      modifies reader
      ensures var spec := LoadPayload(reader.data, old(reader.position), info.Value(), b);
        (r.Ok? <==> spec.Ok?) && (r.Err? ==> r.error == spec.error) &&
        (r.Ok? ==> fresh(r.value) && r.value[..] == spec.value && maxTag == MaxCodec(info.Value().blocks))
    {
      maxTag := 0;
      var size := info.DataSize();
      if size.Err? {
        return Err(MetadataError(size.error)), maxTag;
      }
      ghost var bs := info.Value().blocks;
      ghost var data := reader.data;
      ghost var start := reader.position;
      DataSizeRule(info.Value());
      var payload := new byte[size.value](_ => 0);
      var offset: nat := 0;
      BlocksLoopInit(data, start, bs, b, payload[..]);
      for i := 0 to info.blocksCount
        invariant BlocksReadSoFar(data, start, bs, b, i, reader.position, offset, payload[..], maxTag)
      {
        var failed;
        failed, offset, maxTag := ReadBlock(reader, payload, data, start, bs, b, i, info.blocks[i], offset, maxTag);
        if failed.Some? {
          return Err(failed.value), maxTag;
        }
      }
      BlocksLoopDone(data, start, bs, b, reader.position, offset, payload[..], maxTag);
      r := Ok(payload);
    }

    /** One turn of the block loop: decode block `i` at the reader into `payload[offset..]`. */
    static method ReadBlock(reader: Reader, payload: array<byte>, ghost data: seq<byte>, ghost start: nat,
                            ghost bs: seq<StorageBlockInfo>, b: Compression.Backends, i: nat,
                            blk: StorageBlockInfo, offset: nat, maxTag: nat)
      returns (failed: Option<BundleError>, offset': nat, maxTag': nat)
      requires reader.data == data && i < |bs| && blk == bs[i]
      requires BlocksReadSoFar(data, start, bs, b, i, reader.position, offset, payload[..], maxTag)
      modifies reader, payload
      ensures reader.data == data
      ensures failed.Some? ==> BlocksPayload(data, start, bs, b) == Err(failed.value)
      ensures failed.None? ==> BlocksReadSoFar(data, start, bs, b, i + 1, reader.position, offset', payload[..], maxTag')
    {
      var at := reader.position;
      if at + blk.compressedSize > |reader.data| {
        BlocksLoopOutOfBounds(data, start, bs, b, i, at, offset, payload[..], maxTag);
        return Some(BlockOutOfBounds(i)), offset, maxTag;
      }
      var stored := reader.data[at..at + blk.compressedSize];
      failed, offset', maxTag' := DecodeBlock(payload, data, start, bs, b, i, blk, stored, at, offset, maxTag);
      if failed.None? {
        reader.position := at + blk.compressedSize;
      }
    }

    /** The decoding half of a turn: block `i`'s stored bytes, found at `pos`, decoded into its slot. */
    static method DecodeBlock(payload: array<byte>, ghost data: seq<byte>, ghost start: nat,
                              ghost bs: seq<StorageBlockInfo>, b: Compression.Backends, i: nat,
                              blk: StorageBlockInfo, stored: seq<byte>, ghost pos: nat, offset: nat, maxTag: nat)
      returns (failed: Option<BundleError>, offset': nat, maxTag': nat)
      requires i < |bs| && blk == bs[i] && pos + blk.compressedSize <= |data|
      requires stored == data[pos..pos + blk.compressedSize]
      requires BlocksReadSoFar(data, start, bs, b, i, pos, offset, payload[..], maxTag)
      modifies payload
      ensures failed.Some? ==> BlocksPayload(data, start, bs, b) == Err(failed.value)
      ensures failed.None? ==>
        BlocksReadSoFar(data, start, bs, b, i + 1, pos + blk.compressedSize, offset', payload[..], maxTag')
    {
      var tag := BlockCodec(blk);
      ghost var before := payload[..];
      SlotReady(data, start, bs, b, i, pos, offset, before, maxTag);
      var dec := DecodeSlot(b, tag, stored, payload, offset, blk.uncompressedSize, before);
      ghost var spec := Compression.Decoded(b, tag, stored, blk.uncompressedSize);
      if dec.Err? {
        DecodeFailAt(data, start, bs, b, i, pos, offset, before, maxTag, blk, tag, stored, spec);
        return Some(BlockDecompress(dec.error)), offset, maxTag;
      }
      offset' := offset + blk.uncompressedSize;
      maxTag' := if tag > maxTag then tag else maxTag;
      DecodeStepAt(data, start, bs, b, i, pos, offset, before[..offset], maxTag, blk, tag, stored, spec, payload[..], offset', maxTag');
      failed := None;
    }

    /** `Decompress` into the zero slot `payload[offset..offset + width]`: the decoded bytes, then zeros. */
    static method DecodeSlot(b: Compression.Backends, codec: nat, stored: seq<byte>, payload: array<byte>,
                             offset: nat, width: u32, ghost before: seq<byte>)
      returns (r: Result<nat, Compression.CodecError>)
      requires before == payload[..]
      requires offset + width <= payload.Length
      requires forall k :: offset <= k < payload.Length ==> payload[k] == 0
      modifies payload
      ensures var spec := Compression.Decoded(b, codec, stored, width);
        (r.Ok? <==> spec.Ok?) && (r.Err? ==> r.error == spec.error) &&
        (r.Ok? ==>
           r.value == |spec.value| &&
           payload[..offset + width] == before[..offset] + spec.value + Zeros(width - |spec.value|) &&
           forall k :: offset + width <= k < payload.Length ==> payload[k] == 0)
    {
      r := Compression.Decompress(b, codec, stored, payload, offset, width);
      if r.Ok? {
        SlotFilled(before, offset, Compression.Decoded(b, codec, stored, width).value, width, payload[..]);
      }
    }

    /** `GetCompressionType`: the largest block codec tag seen while loading. */
    function GetCompressionType(): nat
      reads this
    {
      compressionType
    }

    /**
     * `ToBytes(compressionType)`: the LZMA re-chunking, the block tags, the block compression,
     * then the metadata, the sizes and the writes. The total size is computed in the order the
     * parts are written (`BundleLayout.SaveSizeAsWritten` is the order the source adds them in).
     */
    method ToBytes(codec: nat, b: Compression.Backends) returns (r: Result<array<byte>, BundleError>)
      requires Valid()
      modifies this, info, info.blocks
      ensures info == old(info) && info.blocks == old(info.blocks) && payload == old(payload)
      ensures var spec := Saved(old(State()), codec, b);
        (r.Ok? <==> spec.Ok?) && (r.Err? ==> r.error == spec.error) &&
        (r.Ok? ==> fresh(r.value) && Valid() && r.value[..] == spec.value.0 && State() == spec.value.1)
    {
      ghost var s := State();
      ghost var bs := SavedBlocks(s, codec);
      var chunks := PrepareBlocks(info, payload, codec, b, s);
      if chunks.Err? {
        assert Saved(s, codec, b) == Err(chunks.error);
        return Err(chunks.error);
      }
      WithStoredSizesPayload(bs, chunks.value);
      ghost var s' := s.(meta := s.meta.(blocks := WithStoredSizes(bs, chunks.value)));
      assert Saved(s, codec, b) == Assembled(s', chunks.value, b);
      assert State() == s';
      r := Assemble(chunks.value, b);
    }

    /** The block stage of `ToBytes`: the LZMA re-chunking, the codec flag, then each block compressed. */
    static method PrepareBlocks(info: BlocksAndDirectoryInfo, payload: array<byte>, codec: nat,
                                b: Compression.Backends, ghost s: BundleState)
      returns (r: Result<seq<seq<byte>>, BundleError>)
      requires info.Valid() && Saveable(s) && s.meta == info.Value() && s.payload == payload[..]
      modifies info, info.blocks
      ensures info.Valid() && info.blocks == old(info.blocks)
      ensures r == CompressedChunks(s.payload, SavedBlocks(s, codec), codec, b)
      ensures r.Ok? ==> info.Value() == s.meta.(blocks := WithStoredSizes(SavedBlocks(s, codec), r.value))
    {
      ResizeAndTag(info, payload.Length, codec, s);
      r := CompressBlocks(info.blocks, info.blocksCount, payload, codec, b);
    }

    /** The LZMA re-chunking, then the codec tag on every block. */
    static method ResizeAndTag(info: BlocksAndDirectoryInfo, total: nat, codec: nat, ghost s: BundleState)
      requires info.Valid() && Saveable(s) && s.meta == info.Value() && total == |s.payload|
      modifies info, info.blocks
      ensures info.Valid() && info.blocks == old(info.blocks)
      ensures info.Value() == s.meta.(blocks := SavedBlocks(s, codec))
    {
      ghost var resized := s.meta.blocks;
      if codec == Compression.LZMA {
        BlocksTotalExact(s.meta.blocks);
        ChunkCountFits(|s.meta.blocks|, total);
        RechunkBlocks(info, total);
        resized := Rechunked(s.meta.blocks, total);
      }
      assert SavedBlocks(s, codec) == TagFlags(resized, CodecTag(codec));
      assert info.Value() == s.meta.(blocks := resized);
      TagBlocks(info.blocks, info.blocksCount, CodecTag(codec));
    }

    /** The LZMA re-chunking: `ChunkCount(total)` blocks of `UINT32_MAX` bytes but the last. */
    static method RechunkBlocks(info: BlocksAndDirectoryInfo, total: nat)
      requires info.Valid() && ChunkCount(total) <= info.blocksCount
      modifies info, info.blocks
      ensures info.Valid() && info.blocks == old(info.blocks)
      ensures info.Value() == old(info.Value()).(blocks := Rechunked(old(info.Value().blocks), total))
    {
      var count := total / UINT32_MAX + (if total % UINT32_MAX != 0 then 1 else 0);
      SetChunkSizes(info.blocks, total, count);
      info.blocksCount := count;
    }

    /** The loop over the first `count` records: each gets its chunk's size. */
    static method SetChunkSizes(blocks: array<StorageBlockInfo>, total: nat, count: nat)
      requires count == ChunkCount(total) <= blocks.Length
      modifies blocks
      ensures blocks[..count] == Rechunked(old(blocks[..count]), total)
      ensures blocks[count..] == old(blocks[count..])
    {
      ghost var bs := blocks[..];
      if total > 0 {
        ChunkSplit(total);
      }
      for i := 0 to count
        invariant forall k :: 0 <= k < i ==> blocks[k] == bs[k].(uncompressedSize := ChunkSize(total, k))
        invariant forall k :: i <= k < blocks.Length ==> blocks[k] == bs[k]
      {
        var size: u32 := if i == count - 1 then total - i * UINT32_MAX else UINT32_MAX;
        blocks[i] := blocks[i].(uncompressedSize := size);
      }
      assert blocks[..count] == Rechunked(bs[..count], total);
    }

    /** The tag loop over the first `count` records: every block's flags OR-ed with the codec. */
    static method TagBlocks(blocks: array<StorageBlockInfo>, count: nat, tag: bv16)
      requires count <= blocks.Length
      modifies blocks
      ensures blocks[..count] == TagFlags(old(blocks[..count]), tag)
      ensures blocks[count..] == old(blocks[count..])
    {
      ghost var bs := blocks[..];
      for i := 0 to count
        invariant forall k :: 0 <= k < i ==> blocks[k] == bs[k].(flags := bs[k].flags | tag)
        invariant forall k :: i <= k < blocks.Length ==> blocks[k] == bs[k]
      {
        blocks[i] := blocks[i].(flags := blocks[i].flags | tag);
      }
      assert blocks[..count] == TagFlags(bs[..count], tag);
    }

    /** The compression loop over the first `count` records: each block's payload slice compressed, its `compressedSize` recorded. */
    static method CompressBlocks(blocks: array<StorageBlockInfo>, count: nat, payload: array<byte>, codec: nat,
                                 b: Compression.Backends)
      returns (r: Result<seq<seq<byte>>, BundleError>)
      requires count <= blocks.Length && PayloadSize(blocks[..count]) <= payload.Length
      modifies blocks
      ensures r == CompressedChunks(payload[..], old(blocks[..count]), codec, b)
      ensures r.Ok? ==> blocks[..count] == WithStoredSizes(old(blocks[..count]), r.value)
    {
      ghost var bs := blocks[..count];
      var chunks: seq<seq<byte>> := [];
      var p: nat := 0;
      CompressLoopInit(payload[..], bs, codec, b, blocks[..]);
      for i := 0 to count
        invariant CompressedSoFar(payload[..], bs, codec, b, i, p, chunks, blocks[..])
      {
        var failed;
        failed, p, chunks := CompressBlock(blocks, payload, bs, codec, b, i, p, chunks);
        if failed.Some? {
          return Err(failed.value);
        }
      }
      CompressLoopDone(payload[..], bs, codec, b, p, chunks, blocks[..]);
      r := Ok(chunks);
    }

    /** One turn of the compression loop, on block `i` whose payload slice starts at `p`. */
    static method CompressBlock(blocks: array<StorageBlockInfo>, payload: array<byte>, ghost bs: seq<StorageBlockInfo>,
                                codec: nat, b: Compression.Backends, i: nat, p: nat, chunks: seq<seq<byte>>)
      returns (failed: Option<BundleError>, p': nat, chunks': seq<seq<byte>>)
      requires i < |bs| && CompressedSoFar(payload[..], bs, codec, b, i, p, chunks, blocks[..])
      modifies blocks
      ensures failed.Some? ==> CompressedChunks(payload[..], bs, codec, b) == Err(failed.value)
      ensures failed.None? ==> CompressedSoFar(payload[..], bs, codec, b, i + 1, p', chunks', blocks[..])
    {
      PayloadSizePrefix(bs, i);
      ghost var slice := payload[..][p..p + bs[i].uncompressedSize];
      assert payload[p..p + blocks[i].uncompressedSize] == slice;
      var c := Compression.Compress(b, codec, payload[p..p + blocks[i].uncompressedSize]);
      CompressedChunksSnoc(payload[..], bs, i, codec, b, chunks, c);
      if c.Err? {
        CompressedChunksErrPrefix(payload[..], bs, i + 1, codec, b);
        return Some(BlockCompress(c.error)), p, chunks;
      }
      chunks' := chunks + [c.value];
      p' := p + blocks[i].uncompressedSize;
      ghost var before := blocks[..];
      blocks[i] := blocks[i].(compressedSize := |c.value| % UINT32_LIMIT);
      CompressLoopStep(payload[..], bs, codec, b, i, p, chunks, before, c.value, blocks[..]);
      failed := None;
    }

    /** The metadata, the header sizes and flags, the total size, then the writes. */
    method Assemble(chunks: seq<seq<byte>>, b: Compression.Backends) returns (r: Result<array<byte>, BundleError>)
      requires Valid()
      modifies this
      ensures info == old(info) && payload == old(payload)
      ensures var spec := Assembled(old(State()), chunks, b);
        (r.Ok? <==> spec.Ok?) && (r.Err? ==> r.error == spec.error) &&
        (r.Ok? ==> fresh(r.value) && Valid() && r.value[..] == spec.value.0 && State() == spec.value.1)
    {
      var written := AssembleWith(info, header, headerAligned, quirks, atEnd, chunks, b, State());
      if written.Err? {
        return Err(written.error);
      }
      header := written.value.1;
      r := Ok(written.value.0);
    }

    /** `Assemble` on the bundle's parts; the caller stores the new header. */
    static method AssembleWith(info: BlocksAndDirectoryInfo, header: Header, headerAligned: bool, quirks: Quirks,
                               atEnd: bool, chunks: seq<seq<byte>>, b: Compression.Backends, ghost s: BundleState)
      returns (r: Result<(array<byte>, Header), BundleError>)
      requires info.Valid() && s.meta == info.Value() && s.header == header && s.headerAligned == headerAligned
      requires s.quirks == quirks && s.atEnd == atEnd
      ensures var spec := Assembled(s, chunks, b);
        (r.Ok? <==> spec.Ok?) && (r.Err? ==> r.error == spec.error) &&
        (r.Ok? ==> fresh(r.value.0) && r.value.0[..] == spec.value.0 && spec.value.1 == s.(header := r.value.1))
    {
      var metaBytes := info.ToBytesWith(Compression.LZ4HC, b);
      if metaBytes.Err? {
        assert Assembled(s, chunks, b) == Err(MetadataError(metaBytes.error));
        return Err(MetadataError(metaBytes.error));
      }
      var rawSize := info.GetRawSize();
      var stored := StoredSize(info);
      var pad := quirks.hasPadding && header.flags & BLOCK_INFO_NEED_PADDING_AT_START != 0;
      assert pad == PayloadPadding(s);
      r := WriteSaved(header, headerAligned, pad, atEnd, rawSize, metaBytes.value, stored, chunks);
    }

    /** The new header, then the writes into a buffer of its `mSize` bytes. */
    static method WriteSaved(header: Header, aligned: bool, pad: bool, atEnd: bool, rawSize: nat,
                             metaBytes: seq<byte>, stored: nat, chunks: seq<seq<byte>>)
      returns (r: Result<(array<byte>, Header), BundleError>)
      ensures var spec := Finished(header, aligned, pad, atEnd, rawSize, metaBytes, stored, chunks);
        (r.Ok? <==> spec.Ok?) && (r.Err? ==> r.error == spec.error) &&
        (r.Ok? ==> fresh(r.value.0) && r.value.0[..] == spec.value.0 && r.value.1 == spec.value.1)
    {
      var h := SizeHeader(header, aligned, pad, atEnd, rawSize, |metaBytes|, stored);
      var bytes := WriteLayout(HeaderBytes(h), aligned, pad, atEnd, metaBytes, chunks, h.size);
      if bytes.Err? {
        return Err(bytes.error);
      }
      r := Ok((bytes.value, h));
    }

    /** The header updates: the two metadata sizes, the total size and the LZ4HC codec bits. */
    static method SizeHeader(h: Header, aligned: bool, pad: bool, atEnd: bool, rawSize: nat, metaLen: nat, stored: nat)
      returns (h': Header)
      ensures h' == SavedHeader(h, aligned, pad, atEnd, rawSize, metaLen, stored)
    {
      h' := h.(uncompressedBlocksInfoSize := rawSize % UINT32_LIMIT, compressedBlocksInfoSize := metaLen % UINT32_LIMIT);
      var size := SaveSize(HeaderSize(h'), aligned, pad, atEnd, metaLen, stored);
      h' := h'.(size := size % UINT64_LIMIT, flags := h'.flags | LZ4HC_FLAGS);
    }

    /** The size sum, part by part in the order the parts are written. */
    static method SaveSize(headerSize: nat, aligned: bool, pad: bool, atEnd: bool, metaLen: nat, stored: nat)
      returns (size: nat)
      ensures size == LayoutLength(headerSize, aligned, pad, atEnd, metaLen, stored)
    {
      size := headerSize;
      if aligned {
        size := size + (16 - size % 16);
      }
      if !atEnd {
        size := size + metaLen;
      }
      if pad {
        size := size + (16 - size % 16);
      }
      size := size + stored;
      if atEnd {
        size := size + metaLen;
      }
    }

    /** The stored block sizes summed, as the size loop adds them. */
    static method StoredSize(info: BlocksAndDirectoryInfo) returns (total: nat)
      requires info.Valid()
      ensures total == StoredTotal(info.Value().blocks)
    {
      total := 0;
      for i := 0 to info.blocksCount
        invariant total == StoredTotal(info.blocks[..i])
      {
        assert info.blocks[..i + 1][..i] == info.blocks[..i];
        total := total + info.blocks[i].compressedSize;
      }
    }

    /** A `ByteArr(size)` and a writer over it: every write in order; running past the end fails. */
    static method WriteLayout(header: seq<byte>, aligned: bool, pad: bool, atEnd: bool, meta: seq<byte>,
                              chunks: seq<seq<byte>>, size: nat) returns (r: Result<array<byte>, BundleError>)
      ensures var bytes := Layout(header, aligned, pad, atEnd, meta, chunks);
        (r.Ok? <==> |bytes| <= size) && (r.Err? ==> r.error == SaveOverflow) &&
        (r.Ok? ==> fresh(r.value) && r.value[..] == bytes + Zeros(size - |bytes|))
    {
      var writer := new Writer(size);
      var ok := WriteFront(writer, header, aligned, pad, atEnd, meta);
      if ok.Err? {
        return Err(SaveOverflow);
      }
      ok := WriteChunks(writer, chunks);
      if ok.Err? {
        return Err(SaveOverflow);
      }
      ok := WritePart(writer, atEnd, meta);
      if ok.Err? {
        return Err(SaveOverflow);
      }
      assert writer.buffer[..] == writer.Written() + Zeros(size - writer.position) by {
        assert writer.buffer[..] == writer.buffer[..writer.position] + writer.buffer[writer.position..];
        assert writer.buffer[writer.position..] == Zeros(size - writer.position);
      }
      r := Ok(writer.buffer);
    }

    /** The writes before the blocks, from an empty writer. */
    static method WriteFront(writer: Writer, header: seq<byte>, aligned: bool, pad: bool, atEnd: bool, meta: seq<byte>)
      returns (r: Result<(), CursorError>)
      requires writer.Valid() && writer.position == 0
      modifies writer, writer.buffer
      ensures writer.Valid()
      ensures r.Ok? <==> |LayoutFront(header, aligned, pad, atEnd, meta)| <= writer.buffer.Length
      ensures r.Ok? ==> writer.Written() == LayoutFront(header, aligned, pad, atEnd, meta)
    {
      ghost var s0 := header + Zeros(PadTo16(|header|, aligned));
      ghost var s1 := s0 + Optional(!atEnd, meta);
      ghost var s2 := s1 + Zeros(PadTo16(|s1|, pad));
      assert LayoutFront(header, aligned, pad, atEnd, meta) == s2;
      assert |s2| >= |s1| >= |s0| >= |header|;
      assert writer.Written() == [];
      r := WritePart(writer, true, header);
      if r.Err? {
        return;
      }
      assert writer.Written() == header && writer.position == |header|;
      r := WritePadding(writer, aligned);
      if r.Err? {
        return;
      }
      assert writer.Written() == s0 && writer.position == |s0|;
      r := WritePart(writer, !atEnd, meta);
      if r.Err? {
        return;
      }
      assert writer.Written() == s1 && writer.position == |s1|;
      r := WritePadding(writer, pad);
    }

    /** `WriteBytes(s)` when `on`. */
    static method WritePart(writer: Writer, on: bool, s: seq<byte>) returns (r: Result<(), CursorError>)
      requires writer.Valid()
      modifies writer, writer.buffer
      ensures writer.Valid()
      ensures r.Ok? <==> old(writer.position) + |Optional(on, s)| <= writer.buffer.Length
      ensures r.Ok? ==> writer.Written() == old(writer.Written()) + Optional(on, s)
    {
      r := Ok(());
      if on {
        r := writer.WriteBytes(s);
      } else {
        assert writer.Written() == old(writer.Written()) + [];
      }
    }

    /** `Align()` when `on`. */
    static method WritePadding(writer: Writer, on: bool) returns (r: Result<(), CursorError>)
      requires writer.Valid()
      modifies writer, writer.buffer
      ensures writer.Valid()
      ensures r.Ok? <==> old(writer.position) + PadTo16(old(writer.position), on) <= writer.buffer.Length
      ensures r.Ok? ==> writer.Written() == old(writer.Written()) + Zeros(PadTo16(old(writer.position), on))
    {
      r := Ok(());
      if on {
        r := writer.Align();
      } else {
        assert writer.Written() == old(writer.Written()) + [];
      }
    }

    /** The loop writing the compressed blocks one after the other. */
    static method WriteChunks(writer: Writer, chunks: seq<seq<byte>>) returns (r: Result<(), CursorError>)
      requires writer.Valid()
      modifies writer, writer.buffer
      ensures writer.Valid()
      ensures r.Ok? <==> old(writer.position) + |Concat(chunks)| <= writer.buffer.Length
      ensures r.Ok? ==> writer.Written() == old(writer.Written()) + Concat(chunks)
    {
      ghost var prefix := writer.Written();
      for i := 0 to |chunks|
        invariant writer.Valid()
        invariant writer.Written() == prefix + Concat(chunks[..i])
        invariant writer.position == |prefix| + |Concat(chunks[..i])|
      {
        var ok := WriteChunk(writer, chunks, i, prefix);
        if ok.Err? {
          return Err(ok.error);
        }
      }
      assert chunks[..|chunks|] == chunks;
      r := Ok(());
    }

    /** Chunk `i` after the first `i`; a chunk that does not fit means the whole run does not. */
    static method WriteChunk(writer: Writer, chunks: seq<seq<byte>>, i: nat, ghost prefix: seq<byte>)
      returns (r: Result<(), CursorError>)
      requires i < |chunks| && writer.Valid()
      requires writer.Written() == prefix + Concat(chunks[..i])
      requires writer.position == |prefix| + |Concat(chunks[..i])|
      modifies writer, writer.buffer
      ensures writer.Valid()
      ensures r.Err? ==> |prefix| + |Concat(chunks)| > writer.buffer.Length
      ensures r.Ok? ==> writer.Written() == prefix + Concat(chunks[..i + 1])
      ensures r.Ok? ==> writer.position == |prefix| + |Concat(chunks[..i + 1])|
    {
      ConcatSnoc(chunks, i);
      r := writer.WriteBytes(chunks[i]);
      if r.Err? {
        ConcatPrefixLength(chunks, i + 1);
      }
    }
  }
}
