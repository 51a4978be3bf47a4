/**
 * The metadata section of a UnityFS bundle (`BlocksAndDirectoryInfo`): a 16-byte hash, the
 * storage blocks and the directory entries. It is stored compressed, after the header or at
 * the end of the bundle; decompressed, it is read from offset 16 with a fresh cursor.
 */
module BlocksInfo {
  import opened Wrappers
  import opened Bytes
  import opened Cursor
  import opened BundleHeader
  import Compression

  /** One physical chunk of the payload. */
  datatype StorageBlockInfo = StorageBlockInfo(uncompressedSize: u32, compressedSize: u32, flags: bv16)

  /** One logical file inside the payload. */
  datatype DirectoryInfo = DirectoryInfo(offset: u64, size: u64, flags: u32, path: seq<byte>)

  /** The decompressed metadata section as a value. */
  datatype Metadata = Metadata(hash: seq<byte>, blocks: seq<StorageBlockInfo>, dirs: seq<DirectoryInfo>)

  datatype InfoError =
    | MetadataOutOfBounds               // the compressed section lies outside the input
    | MetadataDecompress(e: Compression.CodecError)  // "Failed to decompress blocks info"
    | MetadataTruncated(c: CursorError) // a record read past the end of the decompressed section
    | DataSizeMismatch(blocksTotal: nat, directoryTotal: nat)  // "Data size mismatch"
    | UnexpectedCodec(tag: nat)         // "Unexpected CompressionType"
    | MetadataCompress(e: Compression.CodecError)

  const HASH_SIZE: nat := 16
  const BLOCK_RECORD_SIZE: nat := 10
  const DIRECTORY_FIXED_SIZE: nat := 20

  /** What the metadata serialiser can write: a 16-byte hash, counts that fit in a u32, NUL-free paths. */
  predicate WellFormed(m: Metadata)
  {
    |m.hash| == HASH_SIZE && |m.blocks| < UINT32_LIMIT && |m.dirs| < UINT32_LIMIT &&
    forall i :: 0 <= i < |m.dirs| ==> NulFree(m.dirs[i].path)
  }

  function EncodeBlock(b: StorageBlockInfo): (r: seq<byte>)
    ensures |r| == BLOCK_RECORD_SIZE
  {
    EncodeBE(b.uncompressedSize, 4) + EncodeBE(b.compressedSize, 4) + EncodeBE(b.flags as nat, 2)
  }

  function EncodeBlocks(bs: seq<StorageBlockInfo>): (r: seq<byte>)
    ensures |r| == BLOCK_RECORD_SIZE * |bs|
  {
    if bs == [] then [] else EncodeBlock(bs[0]) + EncodeBlocks(bs[1..])
  }

  /** `DirectoryInfo::GetSize`: 8 + 8 + 4 + path length + 1. */
  function DirSize(d: DirectoryInfo): nat
  {
    DIRECTORY_FIXED_SIZE + |d.path| + 1
  }

  function EncodeDir(d: DirectoryInfo): (r: seq<byte>)
    ensures |r| == DirSize(d)
  {
    EncodeBE(d.offset, 8) + EncodeBE(d.size, 8) + EncodeBE(d.flags, 4) + d.path + [0]
  }

  function SumDirSizes(ds: seq<DirectoryInfo>): nat
  {
    if ds == [] then 0 else DirSize(ds[0]) + SumDirSizes(ds[1..])
  }

  function EncodeDirs(ds: seq<DirectoryInfo>): (r: seq<byte>)
    ensures |r| == SumDirSizes(ds)
  {
    if ds == [] then [] else EncodeDir(ds[0]) + EncodeDirs(ds[1..])
  }

  /** `GetRawSize`: 16 + 4 + 4 + 10 per block + the size of every directory entry. */
  function RawSize(m: Metadata): nat
  {
    HASH_SIZE + 4 + 4 + BLOCK_RECORD_SIZE * |m.blocks| + SumDirSizes(m.dirs)
  }

  /** `ToBytes()`: hash, block count, blocks, directory count, directories. */
  function EncodeMetadata(m: Metadata): (r: seq<byte>)
    requires WellFormed(m)
    ensures |r| == RawSize(m)
  {
    m.hash + EncodeBE(|m.blocks|, 4) + EncodeBlocks(m.blocks) + EncodeBE(|m.dirs|, 4) + EncodeDirs(m.dirs)
  }

  /** One block record at the start of `s`. */
  function DecodeBlock(s: seq<byte>): StorageBlockInfo
    requires |s| >= BLOCK_RECORD_SIZE
  {
    StorageBlockInfo(DecodeU32(s[..4]), DecodeU32(s[4..8]), DecodeU16(s[8..10]) as bv16)
  }

  /** `n` block records at the start of `s`. */
  function DecodeBlocks(s: seq<byte>, n: nat): (r: seq<StorageBlockInfo>)
    requires |s| >= BLOCK_RECORD_SIZE * n
    ensures |r| == n
  {
    if n == 0 then [] else [DecodeBlock(s)] + DecodeBlocks(s[BLOCK_RECORD_SIZE..], n - 1)
  }

  /** One directory record at the start of `s`: three integers, then a NUL-terminated path. */
  function DecodeDir(s: seq<byte>): (r: Result<DirectoryInfo, InfoError>)
    ensures r.Ok? ==> DirSize(r.value) <= |s| && NulFree(r.value.path)
  {
    if |s| < DIRECTORY_FIXED_SIZE then Err(MetadataTruncated(UnexpectedEndOfData))
    else
      var k := NulIndex(s[DIRECTORY_FIXED_SIZE..]);
      if DIRECTORY_FIXED_SIZE + k == |s| then Err(MetadataTruncated(UnexpectedEndOfData))
      else
        assert s[DIRECTORY_FIXED_SIZE..][..k] == s[DIRECTORY_FIXED_SIZE..DIRECTORY_FIXED_SIZE + k];
        Ok(DirectoryInfo(DecodeU64(s[..8]), DecodeU64(s[8..16]), DecodeU32(s[16..20]),
                            s[DIRECTORY_FIXED_SIZE..DIRECTORY_FIXED_SIZE + k]))
  }

  /** `n` directory records at the start of `s`. */
  function DecodeDirs(s: seq<byte>, n: nat): (r: Result<seq<DirectoryInfo>, InfoError>)
    ensures r.Ok? ==> |r.value| == n && forall i :: 0 <= i < n ==> NulFree(r.value[i].path)
  {
    if n == 0 then Ok([])
    else
      match DecodeDir(s)
      case Err(e) => Err(e)
      case Ok(d) =>
        match DecodeDirs(s[DirSize(d)..], n - 1)
        case Err(e) => Err(e)
        case Ok(rest) => Ok([d] + rest)
  }

  /** What the constructor reads from the decompressed section. */
  function DecodeMetadata(raw: seq<byte>): Result<Metadata, InfoError>
  {
    if |raw| < HASH_SIZE + 4 then Err(MetadataTruncated(UnexpectedEndOfData))
    else
      var n := DecodeU32(raw[HASH_SIZE..HASH_SIZE + 4]);
      var afterCount := raw[HASH_SIZE + 4..];
      if |afterCount| < BLOCK_RECORD_SIZE * n + 4 then Err(MetadataTruncated(UnexpectedEndOfData))
      else
        var blocks := DecodeBlocks(afterCount, n);
        var dirPart := afterCount[BLOCK_RECORD_SIZE * n..];
        var m := DecodeU32(dirPart[..4]);
        match DecodeDirs(dirPart[4..], m)
        case Err(e) => Err(e)
        case Ok(dirs) => Ok(Metadata(raw[..HASH_SIZE], blocks, dirs))
  }

  lemma DecodeEncodeBlock(b: StorageBlockInfo, rest: seq<byte>)
    ensures DecodeBlock(EncodeBlock(b) + rest) == b
  {
    var s := EncodeBlock(b) + rest;
    assert s[..4] == EncodeBE(b.uncompressedSize, 4);
    assert s[4..8] == EncodeBE(b.compressedSize, 4);
    assert s[8..10] == EncodeBE(b.flags as nat, 2);
    DecodeEncodeBE(b.uncompressedSize, 4);
    DecodeEncodeBE(b.compressedSize, 4);
    DecodeEncodeBE(b.flags as nat, 2);
  }

  lemma {:induction false} DecodeEncodeBlocks(bs: seq<StorageBlockInfo>, rest: seq<byte>)
    ensures DecodeBlocks(EncodeBlocks(bs) + rest, |bs|) == bs
  {
    if bs != [] {
      SplitAfter(EncodeBlock(bs[0]), EncodeBlocks(bs[1..]), rest);
      DecodeEncodeBlock(bs[0], EncodeBlocks(bs[1..]) + rest);
      DecodeEncodeBlocks(bs[1..], rest);
      assert [bs[0]] + bs[1..] == bs;
    }
  }

  lemma DecodeEncodeDir(d: DirectoryInfo, rest: seq<byte>)
    requires NulFree(d.path)
    ensures DecodeDir(EncodeDir(d) + rest) == Ok(d)
  {
    var s := EncodeDir(d) + rest;
    assert s[..8] == EncodeBE(d.offset, 8);
    assert s[8..16] == EncodeBE(d.size, 8);
    assert s[16..20] == EncodeBE(d.flags, 4);
    assert s[DIRECTORY_FIXED_SIZE..] == d.path + [0] + rest;
    NulIndexOfTerminated(d.path, rest);
    assert s[DIRECTORY_FIXED_SIZE..DIRECTORY_FIXED_SIZE + |d.path|] == d.path;
    DecodeEncodeBE(d.offset, 8);
    DecodeEncodeBE(d.size, 8);
    DecodeEncodeBE(d.flags, 4);
  }

  lemma {:induction false} DecodeEncodeDirs(ds: seq<DirectoryInfo>, rest: seq<byte>)
    requires forall i :: 0 <= i < |ds| ==> NulFree(ds[i].path)
    ensures DecodeDirs(EncodeDirs(ds) + rest, |ds|) == Ok(ds)
  {
    if ds != [] {
      SplitAfter(EncodeDir(ds[0]), EncodeDirs(ds[1..]), rest);
      DecodeEncodeDir(ds[0], EncodeDirs(ds[1..]) + rest);
      DecodeEncodeDirs(ds[1..], rest);
      assert [ds[0]] + ds[1..] == ds;
    }
  }

  /** A record followed by the rest: what follows the record is the rest. */
  lemma SplitAfter(a: seq<byte>, b: seq<byte>, rest: seq<byte>)
    ensures (a + b) + rest == a + (b + rest) && ((a + b) + rest)[|a|..] == b + rest
  {
    assert (a + b) + rest == a + (b + rest);
  }

  /** Parsing what `ToBytes()` wrote gives back the hash, the blocks and the directories. */
  lemma DecodeEncodeMetadata(m: Metadata)
    requires WellFormed(m)
    ensures DecodeMetadata(EncodeMetadata(m)) == Ok(m)
  {
    var raw := EncodeMetadata(m);
    var n := |m.blocks|;
    var pos := HASH_SIZE + 4 + BLOCK_RECORD_SIZE * n;
    EncodedMetadataFields(m);
    Pow256Values();
    DecodeEncodeBE(n, 4);
    DecodeEncodeBE(|m.dirs|, 4);
    DecodeEncodeBlocks(m.blocks, raw[pos..]);
    DecodeEncodeDirs(m.dirs, []);
    assert EncodeDirs(m.dirs) + [] == EncodeDirs(m.dirs);
    DecodeMetadataAt(raw, n, pos, |m.dirs|);
  }

  /** Where `ToBytes()` puts each field: hash, block count, block records, directory count, directory records. */
  lemma EncodedMetadataFields(m: Metadata)
    requires WellFormed(m)
    ensures var raw := EncodeMetadata(m);
      var pos := HASH_SIZE + 4 + BLOCK_RECORD_SIZE * |m.blocks|;
      |raw| >= pos + 4 &&
      raw[..HASH_SIZE] == m.hash && raw[HASH_SIZE..HASH_SIZE + 4] == EncodeBE(|m.blocks|, 4) &&
      raw[HASH_SIZE + 4..] == EncodeBlocks(m.blocks) + raw[pos..] &&
      raw[pos..pos + 4] == EncodeBE(|m.dirs|, 4) && raw[pos + 4..] == EncodeDirs(m.dirs)
  {
    ConcatFields(m.hash, EncodeBE(|m.blocks|, 4), EncodeBlocks(m.blocks), EncodeBE(|m.dirs|, 4), EncodeDirs(m.dirs));
  }

  /** The slices of five byte strings written one after the other. */
  lemma ConcatFields(a: seq<byte>, b: seq<byte>, c: seq<byte>, d: seq<byte>, e: seq<byte>)
    ensures var raw := a + b + c + d + e;
      var p := |a| + |b|;
      var q := p + |c|;
      raw[..|a|] == a && raw[|a|..p] == b && raw[p..] == c + raw[q..] &&
      raw[q..q + |d|] == d && raw[q + |d|..] == e
  {
    var raw := a + b + c + d + e;
    var p := |a| + |b|;
    var q := p + |c|;
    assert raw == a + (b + (c + (d + e)));
    assert raw[p..] == c + (d + e);
    assert raw[q..] == d + e;
  }

  /** Zero bytes: the unwritten tail of a freshly allocated buffer. */
  function Zeros(n: nat): (r: seq<byte>)
    ensures |r| == n
  {
    seq(n, _ => 0)
  }

  /** Where the compressed section is read from, where the cursor ends, and whether it is at the end. */
  datatype Placement = Placement(stored: seq<byte>, newPosition: nat, atEnd: bool)

  function PlaceMetadata(data: seq<byte>, position: nat, h: Header): (r: Result<Placement, InfoError>)
  {
    var c := h.compressedBlocksInfoSize;
    if h.flags & BLOCKS_INFO_AT_THE_END != 0 then
      if h.size > |data| || h.size < c then Err(MetadataOutOfBounds)
      else Ok(Placement(data[h.size - c..h.size], position, true))
    else if position + c > |data| then Err(MetadataOutOfBounds)
    else Ok(Placement(data[position..position + c], position + c, false))
  }

  /**
   * Placing fails exactly when the section would not fit in the input. On success the
   * section is `compressedBlocksInfoSize` bytes of the input: with the at-end flag the last
   * bytes before `mSize`, and the cursor does not move; otherwise exactly the bytes the cursor
   * passes over, and the cursor ends behind them.
   */
  lemma PlacementRule(data: seq<byte>, position: nat, h: Header)
    ensures var c := h.compressedBlocksInfoSize;
      PlaceMetadata(data, position, h).Ok? <==>
        if h.flags & BLOCKS_INFO_AT_THE_END != 0 then c <= h.size <= |data| else position + c <= |data|
    ensures PlaceMetadata(data, position, h).Ok? ==>
      var c := h.compressedBlocksInfoSize;
      var p := PlaceMetadata(data, position, h).value;
      |p.stored| == c && (p.atEnd <==> h.flags & BLOCKS_INFO_AT_THE_END != 0) &&
      (p.atEnd ==> p.newPosition == position && data[..h.size] == data[..h.size - c] + p.stored) &&
      (!p.atEnd ==> p.newPosition == position + c <= |data| && data[..p.newPosition] == data[..position] + p.stored)
  {
    var c := h.compressedBlocksInfoSize;
    if PlaceMetadata(data, position, h).Ok? {
      var p := PlaceMetadata(data, position, h).value;
      if p.atEnd {
        assert data[..h.size] == data[..h.size - c] + data[h.size - c..h.size];
      } else {
        assert data[..position + c] == data[..position] + data[position..position + c];
      }
    }
  }

  /** Decompresses the placed section into an `uncompressedBlocksInfoSize` buffer and parses it. */
  function UnpackMetadata(stored: seq<byte>, h: Header, b: Compression.Backends): Result<Metadata, InfoError>
  {
    match Inflated(stored, h, b)
    case Err(e) => Err(e)
    case Ok(raw) => DecodeMetadata(raw)
  }

  /** The `uncompressedBlocksInfoSize` buffer after decompression: the decoded bytes, then the zeros left over. */
  function Inflated(stored: seq<byte>, h: Header, b: Compression.Backends): (r: Result<seq<byte>, InfoError>)
    ensures r.Ok? ==> |r.value| == h.uncompressedBlocksInfoSize
  {
    match Compression.Decoded(b, MetadataCodec(h), stored, h.uncompressedBlocksInfoSize)
    case Err(e) => Err(MetadataDecompress(e))
    case Ok(out) => Ok(out + Zeros(h.uncompressedBlocksInfoSize - |out|))
  }

  /** The constructor: place, decompress, parse. */
  function ReadMetadata(data: seq<byte>, position: nat, h: Header, b: Compression.Backends)
    : Result<(Metadata, Placement), InfoError>
  {
    match PlaceMetadata(data, position, h)
    case Err(e) => Err(e)
    case Ok(p) =>
      match UnpackMetadata(p.stored, h, b)
      case Err(e) => Err(e)
      case Ok(m) => Ok((m, p))
  }

  /** Uncompressed sizes summed in a u64 accumulator, as `DataSize` does. */
  function BlocksTotal(bs: seq<StorageBlockInfo>): u64
  {
    if bs == [] then 0 else (BlocksTotal(bs[..|bs| - 1]) + bs[|bs| - 1].uncompressedSize) % UINT64_LIMIT
  }

  /** Directory sizes summed in a u64 accumulator, as `DataSize` does. */
  function DirectoriesTotal(ds: seq<DirectoryInfo>): u64
  {
    if ds == [] then 0 else (DirectoriesTotal(ds[..|ds| - 1]) + ds[|ds| - 1].size) % UINT64_LIMIT
  }

  /** The exact sum of the blocks' uncompressed sizes. */
  function PayloadSize(bs: seq<StorageBlockInfo>): nat
  {
    if bs == [] then 0 else PayloadSize(bs[..|bs| - 1]) + bs[|bs| - 1].uncompressedSize
  }

  /** `DataSize`: the block total if it equals the directory total, else the mismatch error. */
  function DataSizeOf(m: Metadata): Result<u64, InfoError>
  {
    var s1 := BlocksTotal(m.blocks);
    var s2 := DirectoriesTotal(m.dirs);
    if s1 == s2 then Ok(s1) else Err(DataSizeMismatch(s1, s2))
  }

  /** With fewer than 2^32 blocks the u64 accumulator never wraps: `DataSize` is the exact payload size. */
  lemma {:induction false} BlocksTotalExact(bs: seq<StorageBlockInfo>)
    requires |bs| < UINT32_LIMIT
    ensures BlocksTotal(bs) == PayloadSize(bs)
    ensures PayloadSize(bs) <= |bs| * 0xFFFF_FFFF
  {
    if bs != [] {
      BlocksTotalExact(bs[..|bs| - 1]);
      assert (|bs| - 1) * 0xFFFF_FFFF + 0xFFFF_FFFF == |bs| * 0xFFFF_FFFF;
    }
  }

  /** `DataSize` succeeds exactly when blocks and directories describe the same number of bytes. */
  lemma DataSizeRule(m: Metadata)
    requires |m.blocks| < UINT32_LIMIT
    ensures DataSizeOf(m).Ok? <==> PayloadSize(m.blocks) == DirectoriesTotal(m.dirs)
    ensures DataSizeOf(m).Ok? ==> DataSizeOf(m).value == PayloadSize(m.blocks)
    ensures DataSizeOf(m).Err? ==> DataSizeOf(m).error == DataSizeMismatch(PayloadSize(m.blocks), DirectoriesTotal(m.dirs))
  {
    BlocksTotalExact(m.blocks);
  }

  /** `ToBytes(compressionType)`: the raw form for None, the compressed raw form for LZ4, LZ4HC and LZMA. */
  function EncodedMetadata(m: Metadata, codec: nat, b: Compression.Backends): Result<seq<byte>, InfoError>
    requires WellFormed(m)
  {
    if codec == Compression.NONE then Ok(EncodeMetadata(m))
    else if codec == Compression.LZ4 || codec == Compression.LZ4HC || codec == Compression.LZMA then
      match Compression.Encoded(b, codec, EncodeMetadata(m))
      case Ok(out) => Ok(out)
      case Err(e) => Err(MetadataCompress(e))
    else Err(UnexpectedCodec(codec))
  }

  lemma EncodedMetadataRule(m: Metadata, codec: nat, b: Compression.Backends)
    requires WellFormed(m)
    ensures codec == Compression.NONE ==> EncodedMetadata(m, codec, b) == Ok(EncodeMetadata(m))
    ensures codec > Compression.LZ4HC ==> EncodedMetadata(m, codec, b) == Err(UnexpectedCodec(codec))
    ensures codec == Compression.LZ4 || codec == Compression.LZ4HC ==>
      EncodedMetadata(m, codec, b) ==
        Ok(Compression.Lz4Fit(Compression.Lz4Output(b, codec, EncodeMetadata(m)), RawSize(m))) &&
      |EncodedMetadata(m, codec, b).value| <= Compression.Lz4CompressBound(RawSize(m))
    ensures codec == Compression.LZMA ==>
      (EncodedMetadata(m, codec, b).Ok? <==>
        b.lzmaEncoderInit && b.lzmaEncode(EncodeMetadata(m)).Some? &&
        Compression.LZMA_ALONE_HEADER_SIZE <= |b.lzmaEncode(EncodeMetadata(m)).value| <= Compression.LzmaOutCapacity(RawSize(m)))
    ensures codec == Compression.LZMA && EncodedMetadata(m, codec, b).Ok? ==>
      EncodedMetadata(m, codec, b).value == Compression.LzmaStoredForm(b.lzmaEncode(EncodeMetadata(m)).value)
    ensures codec == Compression.LZMA && EncodedMetadata(m, codec, b).Err? ==>
      EncodedMetadata(m, codec, b).error.MetadataCompress?
  {
    Compression.EncodedShape(b, codec, EncodeMetadata(m));
  }

  lemma {:induction false} DecodeBlocksSnoc(s: seq<byte>, i: nat)
    requires |s| >= BLOCK_RECORD_SIZE * (i + 1)
    ensures DecodeBlocks(s, i + 1) == DecodeBlocks(s, i) + [DecodeBlock(s[BLOCK_RECORD_SIZE * i..])]
  {
    if i > 0 {
      DecodeBlocksSnoc(s[BLOCK_RECORD_SIZE..], i - 1);
      assert s[BLOCK_RECORD_SIZE..][BLOCK_RECORD_SIZE * (i - 1)..] == s[BLOCK_RECORD_SIZE * i..];
    }
  }

  lemma {:induction false} EncodeBlocksSnoc(bs: seq<StorageBlockInfo>, i: nat)
    requires i < |bs|
    ensures EncodeBlocks(bs[..i + 1]) == EncodeBlocks(bs[..i]) + EncodeBlock(bs[i])
  {
    if i > 0 {
      EncodeBlocksSnoc(bs[1..], i - 1);
      assert bs[1..][..i] == bs[..i + 1][1..];
      assert bs[1..][..i - 1] == bs[..i][1..];
    }
  }

  lemma {:induction false} EncodeDirsSnoc(ds: seq<DirectoryInfo>, i: nat)
    requires i < |ds|
    ensures EncodeDirs(ds[..i + 1]) == EncodeDirs(ds[..i]) + EncodeDir(ds[i])
    ensures SumDirSizes(ds[..i + 1]) == SumDirSizes(ds[..i]) + DirSize(ds[i])
  {
    if i > 0 {
      EncodeDirsSnoc(ds[1..], i - 1);
      assert ds[1..][..i] == ds[..i + 1][1..];
      assert ds[1..][..i - 1] == ds[..i][1..];
    }
  }

  /** `DecodeMetadata` with the positions of the two counts and the directory records written out. */
  lemma DecodeMetadataAt(raw: seq<byte>, n: nat, pos: nat, m: nat)
    requires |raw| >= HASH_SIZE + 4 && n == DecodeU32(raw[HASH_SIZE..HASH_SIZE + 4])
    requires pos == HASH_SIZE + 4 + BLOCK_RECORD_SIZE * n && pos + 4 <= |raw|
    requires m == DecodeU32(raw[pos..pos + 4])
    ensures DecodeDirs(raw[pos + 4..], m).Err? ==> DecodeMetadata(raw) == Err(DecodeDirs(raw[pos + 4..], m).error)
    ensures DecodeDirs(raw[pos + 4..], m).Ok? ==>
      DecodeMetadata(raw) == Ok(Metadata(raw[..HASH_SIZE], DecodeBlocks(raw[HASH_SIZE + 4..], n), DecodeDirs(raw[pos + 4..], m).value))
  {
    assert raw[HASH_SIZE + 4..][BLOCK_RECORD_SIZE * n..] == raw[pos..];
    assert raw[pos..][..4] == raw[pos..pos + 4];
    assert raw[pos..][4..] == raw[pos + 4..];
  }

  /** `DecodeMetadata` fails when the block records or the directory count run past the end. */
  lemma DecodeMetadataShort(raw: seq<byte>)
    requires |raw| >= HASH_SIZE + 4
    requires HASH_SIZE + 4 + BLOCK_RECORD_SIZE * DecodeU32(raw[HASH_SIZE..HASH_SIZE + 4]) + 4 > |raw|
    ensures DecodeMetadata(raw) == Err(MetadataTruncated(UnexpectedEndOfData))
  {
  }

  lemma {:induction false} SumDirSizesSplit(ds: seq<DirectoryInfo>, i: nat)
    requires i <= |ds|
    ensures SumDirSizes(ds) == SumDirSizes(ds[..i]) + SumDirSizes(ds[i..])
  {
    if i > 0 {
      SumDirSizesSplit(ds[1..], i - 1);
      assert ds[1..][..i - 1] == ds[..i][1..];
      assert ds[1..][i - 1..] == ds[i..];
    } else {
      assert ds[..0] == [] && ds[0..] == ds;
    }
  }

  /** Prepends already-read entries to the outcome of reading the rest. */
  function PrependTo(acc: seq<DirectoryInfo>, r: Result<seq<DirectoryInfo>, InfoError>): Result<seq<DirectoryInfo>, InfoError>
  {
    match r
    case Ok(rest) => Ok(acc + rest)
    case Err(e) => Err(e)
  }

  lemma DecodeDirsStep(s: seq<byte>, k: nat)
    requires k > 0
    ensures DecodeDir(s).Err? ==> DecodeDirs(s, k) == Err(DecodeDir(s).error)
    ensures DecodeDir(s).Ok? ==>
      DecodeDirs(s, k) == PrependTo([DecodeDir(s).value], DecodeDirs(s[DirSize(DecodeDir(s).value)..], k - 1))
  {
  }

  lemma PrependAssoc(a: seq<DirectoryInfo>, b: seq<DirectoryInfo>, r: Result<seq<DirectoryInfo>, InfoError>)
    ensures PrependTo(a, PrependTo(b, r)) == PrependTo(a + b, r)
  {
    if r.Ok? {
      assert a + (b + r.value) == (a + b) + r.value;
    }
  }

  lemma PrependEmpty(r: Result<seq<DirectoryInfo>, InfoError>)
    ensures PrependTo([], r) == r
  {
    if r.Ok? {
      assert [] + r.value == r.value;
    }
  }

  /** The directory loop's invariant: the entries read so far, followed by reading the rest, make the whole. */
  predicate DirsReadSoFar(raw: seq<byte>, start: nat, m: nat, pos: nat, i: nat, dirs: seq<DirectoryInfo>)
    requires start <= pos <= |raw| && i <= m
  {
    DecodeDirs(raw[start..], m) == PrependTo(dirs, DecodeDirs(raw[pos..], m - i))
  }

  lemma DirsLoopInit(raw: seq<byte>, start: nat, m: nat)
    requires start <= |raw|
    ensures DirsReadSoFar(raw, start, m, start, 0, [])
  {
    PrependEmpty(DecodeDirs(raw[start..], m));
  }

  lemma DirsLoopFail(raw: seq<byte>, start: nat, m: nat, pos: nat, i: nat, dirs: seq<DirectoryInfo>)
    requires start <= pos <= |raw| && i < m
    requires DirsReadSoFar(raw, start, m, pos, i, dirs)
    requires DecodeDir(raw[pos..]).Err?
    ensures DecodeDirs(raw[start..], m) == Err(DecodeDir(raw[pos..]).error)
  {
    DecodeDirsStep(raw[pos..], m - i);
  }

  lemma DirsLoopDone(raw: seq<byte>, start: nat, m: nat, pos: nat, dirs: seq<DirectoryInfo>)
    requires start <= pos <= |raw|
    requires DirsReadSoFar(raw, start, m, pos, m, dirs)
    ensures DecodeDirs(raw[start..], m) == Ok(dirs)
  {
    assert dirs + [] == dirs;
  }

  /** One turn of the directory loop keeps the invariant. */
  lemma DirsLoopStep(raw: seq<byte>, start: nat, pos: nat, m: nat, i: nat, dirs: seq<DirectoryInfo>,
                     d: DirectoryInfo, next: nat, dirs': seq<DirectoryInfo>)
    requires start <= pos <= |raw| && i < m
    requires DirsReadSoFar(raw, start, m, pos, i, dirs)
    requires DecodeDir(raw[pos..]) == Ok(d) && next == pos + DirSize(d) && dirs' == dirs + [d]
    ensures next <= |raw| && DirsReadSoFar(raw, start, m, next, i + 1, dirs')
  {
    DecodeDirsStep(raw[pos..], m - i);
    assert raw[pos..][DirSize(d)..] == raw[next..];
    PrependAssoc(dirs, [d], DecodeDirs(raw[next..], m - (i + 1)));
  }

  /** The loop reading `DirectoryInfoCount` directory records from `start` on. */
  method ReadDirectoryRecords(raw: seq<byte>, start: nat, m: nat) returns (r: Result<seq<DirectoryInfo>, InfoError>)
    requires start <= |raw|
    ensures r == DecodeDirs(raw[start..], m)
  {
    var pos := start;
    var dirs: seq<DirectoryInfo> := [];
    DirsLoopInit(raw, start, m);
    for i := 0 to m
      invariant start <= pos <= |raw|
      invariant DirsReadSoFar(raw, start, m, pos, i, dirs)
    {
      var failed;
      failed, pos, dirs := ReadDirectoryRecord(raw, start, m, pos, i, dirs);
      if failed.Some? {
        return Err(failed.value);
      }
    }
    DirsLoopDone(raw, start, m, pos, dirs);
    return Ok(dirs);
  }

  /** One turn of the directory loop: the record at `pos`. */
  method ReadDirectoryRecord(raw: seq<byte>, start: nat, m: nat, pos: nat, i: nat, dirs: seq<DirectoryInfo>)
    returns (failed: Option<InfoError>, pos': nat, dirs': seq<DirectoryInfo>)
    requires start <= pos <= |raw| && i < m
    requires DirsReadSoFar(raw, start, m, pos, i, dirs)
    ensures failed.Some? ==> DecodeDirs(raw[start..], m) == Err(failed.value)
    ensures failed.None? ==> start <= pos' <= |raw| && DirsReadSoFar(raw, start, m, pos', i + 1, dirs')
  {
    var d := DecodeDir(raw[pos..]);
    if d.Err? {
      DirsLoopFail(raw, start, m, pos, i, dirs);
      return Some(d.error), pos, dirs;
    }
    pos' := pos + DirSize(d.value);
    dirs' := dirs + [d.value];
    DirsLoopStep(raw, start, pos, m, i, dirs, d.value, pos', dirs');
    failed := None;
  }

  /** The metadata section as the object `BlocksAndDirectoryInfo` holds it. */
  class BlocksAndDirectoryInfo {
    var hash: seq<byte>                    // UncompressedDataHash
    var blocks: array<StorageBlockInfo>    // BlocksInfos
    var blocksCount: nat                   // BlocksInfoCount
    var dirs: seq<DirectoryInfo>           // DirectoryInfos

    ghost predicate Valid()
      reads this
    {
      blocksCount <= blocks.Length && |hash| == HASH_SIZE && blocksCount < UINT32_LIMIT &&
      |dirs| < UINT32_LIMIT && (forall i :: 0 <= i < |dirs| ==> NulFree(dirs[i].path))
    }

    ghost function Value(): (m: Metadata)
      reads this, blocks
      requires Valid()
      ensures WellFormed(m)
    {
      Metadata(hash, blocks[..blocksCount], dirs)
    }

    constructor (hash: seq<byte>, blocks: array<StorageBlockInfo>, dirs: seq<DirectoryInfo>)
      requires |hash| == HASH_SIZE && blocks.Length < UINT32_LIMIT && |dirs| < UINT32_LIMIT
      requires forall i :: 0 <= i < |dirs| ==> NulFree(dirs[i].path)
      ensures Valid()
      ensures this.blocks == blocks && Value() == Metadata(hash, blocks[..], dirs)
    {
      this.hash := hash;
      this.blocks := blocks;
      this.blocksCount := blocks.Length;
      this.dirs := dirs;
    }

    /**
     * The constructor `BlocksAndDirectoryInfo(reader, header, &blocksInfoAtTheEnd)`: a failure
     * is the exception it throws.
     */
    static method Read(reader: Reader, h: Header, b: Compression.Backends)
      returns (r: Result<BlocksAndDirectoryInfo, InfoError>, atEnd: bool)
      modifies reader
      ensures var spec := ReadMetadata(reader.data, old(reader.position), h, b);
        (r.Ok? <==> spec.Ok?) && (r.Err? ==> r.error == spec.error) &&
        (r.Ok? ==> fresh(r.value) && fresh(r.value.blocks) && r.value.Valid() &&
                   r.value.Value() == spec.value.0 && atEnd == spec.value.1.atEnd &&
                   reader.position == spec.value.1.newPosition)
    {
      var stored;
      stored, atEnd := Place(reader, h);
      if stored.Err? {
        return Err(stored.error), atEnd;
      }
      r := Unpack(stored.value, h, b);
    }

    /** Finds the compressed section: at `mSize - c` with the at-end flag, else at the cursor. */
    static method Place(reader: Reader, h: Header) returns (r: Result<seq<byte>, InfoError>, atEnd: bool)
      modifies reader
      ensures var spec := PlaceMetadata(reader.data, old(reader.position), h);
        (r.Ok? <==> spec.Ok?) && (r.Err? ==> r.error == spec.error) &&
        (r.Ok? ==> r.value == spec.value.stored && atEnd == spec.value.atEnd &&
                   reader.position == spec.value.newPosition)
    {
      var c := h.compressedBlocksInfoSize;
      if h.flags & BLOCKS_INFO_AT_THE_END != 0 {
        atEnd := true;
        if h.size > |reader.data| || h.size < c {
          return Err(MetadataOutOfBounds), atEnd;
        }
        r := Ok(reader.data[h.size - c..h.size]);
      } else {
        atEnd := false;
        if reader.position + c > |reader.data| {
          return Err(MetadataOutOfBounds), atEnd;
        }
        r := Ok(reader.data[reader.position..reader.position + c]);
        reader.position := reader.position + c;
      }
    }

    /** Decompresses into a zeroed buffer of `uncompressedBlocksInfoSize` bytes and parses it. */
    static method Unpack(stored: seq<byte>, h: Header, b: Compression.Backends)
      returns (r: Result<BlocksAndDirectoryInfo, InfoError>)
      ensures var spec := UnpackMetadata(stored, h, b);
        (r.Ok? <==> spec.Ok?) && (r.Err? ==> r.error == spec.error) &&
        (r.Ok? ==> fresh(r.value) && fresh(r.value.blocks) && r.value.Valid() && r.value.Value() == spec.value)
    {
      var raw := Inflate(stored, h, b);
      if raw.Err? {
        return Err(raw.error);
      }
      r := Parse(raw.value);
    }

    /** The decompression into a zeroed `uncompressedBlocksInfoSize` buffer. */
    static method Inflate(stored: seq<byte>, h: Header, b: Compression.Backends) returns (r: Result<seq<byte>, InfoError>)
      ensures r == Inflated(stored, h, b)
    {
      var u := h.uncompressedBlocksInfoSize;
      var buffer := new byte[u](_ => 0);
      ghost var zero := buffer[..];
      ghost var decoded := Compression.Decoded(b, MetadataCodec(h), stored, u);
      var dec := Compression.Decompress(b, MetadataCodec(h), stored, buffer, 0, u);
      if dec.Err? {
        return Err(MetadataDecompress(dec.error));
      }
      ghost var out := decoded.value;
      assert buffer[..] == out + Zeros(u - |out|) by {
        assert zero[|out|..] == Zeros(u - |out|);
      }
      r := Ok(buffer[..]);
    }

    /** Reads hash, counts and records from the decompressed section with a cursor starting at 16. */
    static method Parse(raw: seq<byte>) returns (r: Result<BlocksAndDirectoryInfo, InfoError>)
      ensures var spec := DecodeMetadata(raw);
        (r.Ok? <==> spec.Ok?) && (r.Err? ==> r.error == spec.error) &&
        (r.Ok? ==> fresh(r.value) && fresh(r.value.blocks) && r.value.Valid() && r.value.Value() == spec.value)
    {
      if |raw| < HASH_SIZE + 4 {
        return Err(MetadataTruncated(UnexpectedEndOfData));
      }
      var n := DecodeU32(raw[HASH_SIZE..HASH_SIZE + 4]);
      var blocks := ReadBlockRecords(raw, HASH_SIZE + 4, n);
      var pos := HASH_SIZE + 4 + BLOCK_RECORD_SIZE * n;
      if blocks.None? || pos + 4 > |raw| {
        DecodeMetadataShort(raw);
        return Err(MetadataTruncated(UnexpectedEndOfData));
      }
      DecodeMetadataAt(raw, n, pos, DecodeU32(raw[pos..pos + 4]));
      r := ParseDirectories(raw, pos, raw[..HASH_SIZE], blocks.value);
    }

    /** The rest of `Parse` once the block records are read: the directory count at `pos` and the records. */
    static method ParseDirectories(raw: seq<byte>, pos: nat, hash: seq<byte>, blocks: array<StorageBlockInfo>)
      returns (r: Result<BlocksAndDirectoryInfo, InfoError>)
      requires pos + 4 <= |raw| && |hash| == HASH_SIZE && blocks.Length < UINT32_LIMIT
      ensures var spec := DecodeDirs(raw[pos + 4..], DecodeU32(raw[pos..pos + 4]));
        (r.Ok? <==> spec.Ok?) && (r.Err? ==> r.error == spec.error) &&
        (r.Ok? ==> fresh(r.value) && r.value.blocks == blocks && r.value.Valid() &&
                   r.value.Value() == Metadata(hash, blocks[..], spec.value))
    {
      var m := DecodeU32(raw[pos..pos + 4]);
      var dirs := ReadDirectoryRecords(raw, pos + 4, m);
      if dirs.Err? {
        return Err(dirs.error);
      }
      var info := new BlocksAndDirectoryInfo(hash, blocks, dirs.value);
      r := Ok(info);
    }

    /** The loop reading `BlocksInfoCount` block records of 10 bytes each from `base` on. */
    static method ReadBlockRecords(raw: seq<byte>, base: nat, n: nat) returns (r: Option<array<StorageBlockInfo>>)
      requires base <= |raw|
      ensures r.Some? <==> base + BLOCK_RECORD_SIZE * n <= |raw|
      ensures r.Some? ==> fresh(r.value) && r.value[..] == DecodeBlocks(raw[base..], n)
    {
      var blocks := new StorageBlockInfo[n];
      var pos := base;
      for i := 0 to n
        invariant pos == base + BLOCK_RECORD_SIZE * i <= |raw|
        invariant blocks[..i] == DecodeBlocks(raw[base..], i)
      {
        if pos + BLOCK_RECORD_SIZE > |raw| {
          return None;
        }
        blocks[i] := DecodeBlock(raw[pos..]);
        DecodeBlocksSnoc(raw[base..], i);
        assert raw[base..][BLOCK_RECORD_SIZE * i..] == raw[pos..];
        assert blocks[..i + 1] == blocks[..i] + [blocks[i]];
        pos := pos + BLOCK_RECORD_SIZE;
      }
      assert blocks[..] == blocks[..n];
      return Some(blocks);
    }

    /** `DataSize`. */
    method DataSize() returns (r: Result<u64, InfoError>)
      requires Valid()
      ensures r == DataSizeOf(Value())
    {
      var size1: u64 := 0;
      var size2: u64 := 0;
      for i := 0 to blocksCount
        invariant size1 == BlocksTotal(blocks[..i])
      {
        assert blocks[..i + 1][..i] == blocks[..i];
        size1 := (size1 + blocks[i].uncompressedSize) % UINT64_LIMIT;
      }
      for i := 0 to |dirs|
        invariant size2 == DirectoriesTotal(dirs[..i])
      {
        assert dirs[..i + 1][..i] == dirs[..i];
        size2 := (size2 + dirs[i].size) % UINT64_LIMIT;
      }
      assert blocks[..blocksCount] == Value().blocks;
      assert dirs[..|dirs|] == dirs;
      if size1 == size2 {
        return Ok(size1);
      }
      return Err(DataSizeMismatch(size1, size2));
    }

    /** `GetRawSize`. */
    method GetRawSize() returns (size: nat)
      requires Valid()
      ensures size == RawSize(Value())
    {
      size := HASH_SIZE + 4 + 4 + BLOCK_RECORD_SIZE * blocksCount;
      for i := 0 to |dirs|
        invariant size == HASH_SIZE + 4 + 4 + BLOCK_RECORD_SIZE * blocksCount + SumDirSizes(dirs[..i])
      {
        EncodeDirsSnoc(dirs, i);
        size := size + DirSize(dirs[i]);
      }
      assert dirs[..|dirs|] == dirs;
    }

    /** `ToBytes()`: a writer of `GetRawSize()` bytes receives the hash, the counts and the records. */
    method ToBytes() returns (bytes: seq<byte>)
      requires Valid()
      ensures bytes == EncodeMetadata(Value())
    {
      ghost var m := Value();
      var rawSize := GetRawSize();
      var writer := new Writer(rawSize);
      WriteBlocksPart(writer, hash, blocks, blocksCount, SumDirSizes(dirs) + 4);
      WriteDirsPart(writer, dirs);
      assert writer.Written() == EncodeMetadata(m);
      assert writer.buffer[..] == writer.Written();
      bytes := writer.buffer[..];
    }

    /** The hash, the block count and the block records, from an empty writer. */
    static method WriteBlocksPart(writer: Writer, hash: seq<byte>, blocks: array<StorageBlockInfo>, count: nat,
                                  room: nat)
      requires writer.Valid() && writer.position == 0 && count <= blocks.Length && count < UINT32_LIMIT
      requires |hash| + 4 + BLOCK_RECORD_SIZE * count + room <= writer.buffer.Length
      modifies writer, writer.buffer
      ensures writer.Valid()
      ensures writer.Written() == hash + EncodeBE(count, 4) + EncodeBlocks(blocks[..count])
    {
      Pow256Values();
      var ok := writer.WriteBytes(hash);
      assert ok.Ok? && writer.Written() == hash;
      ok := writer.WriteBytes(EncodeBE(count, 4));
      assert ok.Ok?;
      WriteBlockRecords(writer, blocks, count, room);
    }

    /** The directory count and the directory records. */
    static method WriteDirsPart(writer: Writer, dirs: seq<DirectoryInfo>)
      requires writer.Valid() && |dirs| < UINT32_LIMIT
      requires writer.position + 4 + SumDirSizes(dirs) <= writer.buffer.Length
      modifies writer, writer.buffer
      ensures writer.Valid()
      ensures writer.Written() == old(writer.Written()) + EncodeBE(|dirs|, 4) + EncodeDirs(dirs)
    {
      Pow256Values();
      var ok := writer.WriteBytes(EncodeBE(|dirs|, 4));
      assert ok.Ok?;
      WriteDirectoryRecords(writer, dirs);
    }

    /** The loop writing `blocksCount` block records; `room` more bytes stay free after them. */
    static method WriteBlockRecords(writer: Writer, blocks: array<StorageBlockInfo>, count: nat, room: nat)
      requires writer.Valid() && count <= blocks.Length
      requires writer.position + BLOCK_RECORD_SIZE * count + room <= writer.buffer.Length
      modifies writer, writer.buffer
      ensures writer.Valid()
      ensures writer.Written() == old(writer.Written()) + EncodeBlocks(blocks[..count])
    {
      ghost var prefix := writer.Written();
      for i := 0 to count
        invariant writer.Valid()
        invariant writer.Written() == prefix + EncodeBlocks(blocks[..i])
        invariant writer.position == |prefix| + BLOCK_RECORD_SIZE * i
      {
        EncodeBlocksSnoc(blocks[..count], i);
        assert blocks[..count][..i + 1] == blocks[..i + 1];
        assert blocks[..count][..i] == blocks[..i];
        var ok := writer.WriteBytes(EncodeBlock(blocks[i]));
        assert ok.Ok?;
      }
    }

    /** The loop writing the directory records. */
    static method WriteDirectoryRecords(writer: Writer, dirs: seq<DirectoryInfo>)
      requires writer.Valid()
      requires writer.position + SumDirSizes(dirs) <= writer.buffer.Length
      modifies writer, writer.buffer
      ensures writer.Valid()
      ensures writer.Written() == old(writer.Written()) + EncodeDirs(dirs)
    {
      ghost var prefix := writer.Written();
      for i := 0 to |dirs|
        invariant writer.Valid()
        invariant writer.Written() == prefix + EncodeDirs(dirs[..i])
        invariant writer.position == |prefix| + SumDirSizes(dirs[..i])
      {
        EncodeDirsSnoc(dirs, i);
        SumDirSizesSplit(dirs, i + 1);
        var ok := writer.WriteBytes(EncodeDir(dirs[i]));
        assert ok.Ok?;
      }
      assert dirs[..|dirs|] == dirs;
    }

    /** `ToBytes(compressionType)`. */
    method ToBytesWith(codec: nat, b: Compression.Backends) returns (r: Result<seq<byte>, InfoError>)
      requires Valid()
      ensures r == EncodedMetadata(Value(), codec, b)
    {
      if codec == Compression.NONE {
        var raw := ToBytes();
        return Ok(raw);
      } else if codec == Compression.LZ4 || codec == Compression.LZ4HC || codec == Compression.LZMA {
        var raw := ToBytes();
        var out := Compression.Compress(b, codec, raw);
        if out.Err? {
          return Err(MetadataCompress(out.error));
        }
        return Ok(out.value);
      }
      return Err(UnexpectedCodec(codec));
    }
  }
}
