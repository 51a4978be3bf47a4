/**
 * The UnityFS header as the bundle code uses it. The header's own source is not part of
 * this model: its fields are those the bundle code reads and writes, its byte form is the
 * UnityFS header layout (signature, format version, two version strings, total size, the two
 * metadata sizes, flags; strings NUL-terminated, integers big-endian), and `ParseVersion`'s
 * numeric triple is carried as a field.
 */
module BundleHeader {
  import opened Bytes

  /** `ArchiveFlags` bits. */
  const COMPRESSION_TYPE_MASK: bv32 := 0x3F
  const BLOCKS_AND_DIRECTORY_INFO_COMBINED: bv32 := 0x40
  const BLOCKS_INFO_AT_THE_END: bv32 := 0x80
  const OLD_WEB_PLUGIN_COMPATIBILITY: bv32 := 0x100
  const BLOCK_INFO_NEED_PADDING_AT_START: bv32 := 0x200
  const UNITY_CN_ENCRYPTION: bv32 := 0x400

  /** The engine version triple `ParseVersion` returns (major, minor, patch). */
  datatype EngineVersion = EngineVersion(major: int, minor: int, patch: int)

  datatype Header = Header(
    signature: seq<byte>,
    version: u32,                     // mVersion, the format version
    unityVersion: seq<byte>,
    unityRevision: seq<byte>,
    engine: EngineVersion,            // ParseVersion()
    size: u64,                        // mSize
    compressedBlocksInfoSize: u32,    // mCompressedBlocksInfoSize
    uncompressedBlocksInfoSize: u32,  // mUncompressedBlocksInfoSize
    flags: bv32)                      // mFlags

  /** `GetSize()`: the number of bytes `Write` emits. */
  function HeaderSize(h: Header): nat
  {
    |h.signature| + 1 + 4 + |h.unityVersion| + 1 + |h.unityRevision| + 1 + 8 + 4 + 4 + 4
  }

  /** `Write`: the header's bytes. */
  function HeaderBytes(h: Header): (r: seq<byte>)
    ensures |r| == HeaderSize(h)
  {
    h.signature + [0] + EncodeBE(h.version, 4) + h.unityVersion + [0] + h.unityRevision + [0]
      + EncodeBE(h.size, 8) + EncodeBE(h.compressedBlocksInfoSize, 4)
      + EncodeBE(h.uncompressedBlocksInfoSize, 4) + EncodeBE(h.flags as nat, 4)
  }

  /** The codec tag of the metadata section, `mFlags & CompressionTypeMask`. */
  function MetadataCodec(h: Header): nat
  {
    (h.flags & COMPRESSION_TYPE_MASK) as nat
  }
}
