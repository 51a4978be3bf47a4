# Mod Manager core, modelled in Dafny

Mod Manager is an Android application that installs game mods. It scans mod archives and
folders, groups their files into mods, and enables a mod by backing up the game files it
replaces and copying its own files in. Disabling or deleting a mod restores the backups.
It also carries a native UnityFS recompressor. That part parses a Unity asset bundle, inflates
its storage blocks into one payload, and writes the bundle back under another block codec
(none, LZMA, LZ4 or LZ4HC).

This project models both parts. There is one Dafny module per core source file, as follows.

- The recompressor:
  - `Compression` covers `Compression.cpp`;
  - `BlocksInfo` covers `BlocksAndDirectoryInfo.cpp`;
  - `Bundle` and `BundleLayout` cover `BundleFile.cpp`, and `SaveLoad` proves that its loader reads back what its writer wrote;
  - `BundleHeader` and `Cursor` stand for the header record and the big-endian reader and writer the bundle code uses.
- The mod management:
  - `EnableMods`, `ScanSync`, `ModScan`, `DeleteMods`, `FlashMods` and `GameConfig` cover the use cases and the scan service;
  - `ModBean` and `LegacyModBean` cover the two mod beans;
  - `GameInfoRepo` covers the game repository;
  - `FileTools` covers the file-tools selector;
  - `ModList` and `ModBrowser` cover the two list view models;
  - `Backup` covers the backup service;
  - `ProjectSnow` covers the Project Snow handler;
  - `ArchiveType` covers the archive sniffing and routing of `ArchiveUtil`.
- Shared values and helpers:
  - `DomainMod` and `GameInfo` hold the shared records;
  - `Wrappers`, `Bytes`, `Strings`, `Lists` and `JavaFile` hold helper definitions, with `JavaFile` standing for the `java.io.File` path functions.

The recompressor is imperative code. It becomes classes over arrays and sequences: `Reader`,
`Writer`, `BlocksAndDirectoryInfo` and `BundleFile`. Each method is proved against a
specification function of the bytes. The main results are these:
- the metadata section decodes back to the records it was encoded from;
- every codec round-trips when its library does;
- the saved bundle has exactly the stated layout;
- loading a saved bundle gives back the payload and directory entries that were saved (`SaveLoad`).

The mod management code is mostly loops over lists and maps. It becomes methods on classes
holding those maps, proved against functions that define each use case's outcome, with lemmas
about those functions. Examples:
- a mod is enabled only when it shares no game file with an enabled mod or with another mod enabled alongside it;
- a sync adds, updates and deletes exactly the changed records;
- the backup made when a mod is enabled is what its restore puts back.

The file system, digests, the database and the preference store become parameters. Examples:
- a map from path to content;
- a predicate telling which copies fail;
- the list of records a DAO returns.

The codec libraries (liblz4, liblzma) are function fields of a `Backends` value. The model adds
only the size and status checks the source makes around each call.

## Model

| member | source | states |
|---|---|---|
| Compression.SizeFieldHolds | app/src/main/cpp/ABRecompressor/src/Compression.cpp:28-33 | the 8-byte size field decodes (little-endian) to the expected size and its upper four bytes are zero |
| Compression.StoredFormOfDecoderInput | app/src/main/cpp/ABRecompressor/src/Compression.cpp:34-36 | removing the inserted size field from the decoder input gives back the stored block |
| Compression.DecoderInputOfStoredForm | app/src/main/cpp/ABRecompressor/src/Compression.cpp:103-104 | inserting the size field into what `Compress` stores gives back the encoder's stream with only its size field replaced |
| Compression.DecodedSizes | app/src/main/cpp/ABRecompressor/src/Compression.cpp:11-68 | a decode succeeds only for tags 0-3; a stored block succeeds iff its size is the expected one and is then returned unchanged; LZ4 succeeds only with exactly the expected size; LZMA needs at least 5 bytes, and fewer than `2^32 - 8` (lines 28 and 38 compute `compressedSize + 8` in 32 bits), returns at most the expected size, and is the library's decode of the fixed-up input |
| Compression.Decompress | app/src/main/cpp/ABRecompressor/src/Compression.cpp:11-68 | fails exactly when the decode fails, with its error, including the LZMA block whose `compressedSize + 8` wraps around 32 bits; otherwise writes the decoded bytes into the output at the offset, leaves the rest of the buffer as it was, and returns their count |
| Compression.BuildLzmaDecoderInput | app/src/main/cpp/ABRecompressor/src/Compression.cpp:28-36 | the buffer filled by the index loop is the properties, the 8-byte size field of the expected size, then the rest of the stored block |
| Compression.LzmaOutCapacityWraps | app/src/main/cpp/ABRecompressor/src/Compression.cpp:91-94 | the LZMA output capacity `n + n/3 + 128` is exact while it fits 32 bits; past that it wraps to less than the input size (1431655892 for an input of `2^32 - 1` bytes) |
| Compression.EncodedShape | app/src/main/cpp/ABRecompressor/src/Compression.cpp:71-127 | encoding fails only for an unknown tag or an LZMA init/stream failure or a stream longer than `n + n/3 + 128` computed in 32 bits, so wrapped for large inputs; None returns the input; LZ4 output never exceeds `LZ4_compressBound`; LZMA returns the stream with its size field removed |
| Compression.Compress | app/src/main/cpp/ABRecompressor/src/Compression.cpp:71-127 | returns the encoding `Encoded` defines, through the output buffer and the in-place properties move |
| Compression.StripSizeField | app/src/main/cpp/ABRecompressor/src/Compression.cpp:92-104 | the tail of the output buffer from offset 8, after the move, is the stream without its size field |
| Compression.MoveProperties | app/src/main/cpp/ABRecompressor/src/Compression.cpp:103 | the five property bytes are copied over bytes 8-12; every other byte is unchanged |
| Compression.NoneRoundTrip | app/src/main/cpp/ABRecompressor/src/Compression.cpp:13-18 | a stored (None) block decodes back to the original bytes |
| Compression.Lz4RoundTrip | app/src/main/cpp/ABRecompressor/src/Compression.cpp:109-122 | an LZ4 block (`LZ4_compress_default`) or an LZ4HC block decodes back to the original through the LZ4 decode branch (lines 56-62) when the library inverts its own output and that output fits the bound |
| Compression.LzmaRoundTrip | app/src/main/cpp/ABRecompressor/src/Compression.cpp:21-53 | an LZMA block decodes back to the original when the library decodes its own stream with the real size: the decode fix-up undoes the encode fix-up |
| BlocksInfo.EncodeMetadata | app/src/main/cpp/ABRecompressor/src/BlocksAndDirectoryInfo.cpp:47-60 | the serialised section is exactly `GetRawSize()` bytes long |
| BlocksInfo.DecodeEncodeBlocks | app/src/main/cpp/ABRecompressor/src/BlocksAndDirectoryInfo.cpp:35-38 | reading `n` block records back from what the writer loop wrote gives the same blocks, whatever follows |
| BlocksInfo.DecodeEncodeDirs | app/src/main/cpp/ABRecompressor/src/BlocksAndDirectoryInfo.cpp:41-44 | reading the directory records back from what the writer loop wrote gives the same entries, for NUL-free paths |
| BlocksInfo.DecodeEncodeMetadata | app/src/main/cpp/ABRecompressor/src/BlocksAndDirectoryInfo.cpp:28-44 | parsing what `ToBytes()` wrote gives back the hash, the blocks and the directories |
| BlocksInfo.EncodedMetadataFields | app/src/main/cpp/ABRecompressor/src/BlocksAndDirectoryInfo.cpp:47-60 | where `ToBytes()` puts the hash, the two counts and the two record runs |
| BlocksInfo.DecodeDir | app/src/main/cpp/ABRecompressor/src/BlocksAndDirectoryInfo.cpp:43 | a directory record read successfully fits in the input and has a NUL-free path |
| BlocksInfo.DecodeDirs | app/src/main/cpp/ABRecompressor/src/BlocksAndDirectoryInfo.cpp:40-44 | a successful read yields exactly the announced number of entries |
| BlocksInfo.DecodeMetadataShort | app/src/main/cpp/ABRecompressor/src/BlocksAndDirectoryInfo.cpp:31-39 | a section whose block records or directory count run past its end is refused as truncated |
| BlocksInfo.PlacementRule | app/src/main/cpp/ABRecompressor/src/BlocksAndDirectoryInfo.cpp:10-17 | placing succeeds exactly when the section fits: with the at-end flag `mCompressedBlocksInfoSize <= mSize <= ` the data length, without it the section fits after the cursor; the section is then `mCompressedBlocksInfoSize` bytes that, put after what precedes them, rebuild the data up to `mSize` (cursor unchanged) or up to the new cursor, which is the old one plus the section's length |
| BlocksInfo.Inflated | app/src/main/cpp/ABRecompressor/src/BlocksAndDirectoryInfo.cpp:19-22 | the decompression buffer is always `mUncompressedBlocksInfoSize` bytes long |
| BlocksInfo.BlocksTotalExact | app/src/main/cpp/ABRecompressor/src/BlocksAndDirectoryInfo.cpp:81-94 | with fewer than 2^32 blocks the u64 block total never wraps and is the exact payload size |
| BlocksInfo.DataSizeRule | app/src/main/cpp/ABRecompressor/src/BlocksAndDirectoryInfo.cpp:81-94 | `DataSize` succeeds exactly when the block and directory totals agree, returns that total, and otherwise reports both totals |
| BlocksInfo.EncodedMetadataRule | app/src/main/cpp/ABRecompressor/src/BlocksAndDirectoryInfo.cpp:62-79 | None gives the raw form; LZ4 and LZ4HC give the library's output checked against the bound; LZMA succeeds exactly when the encoder starts, encodes, and its stream is 13 bytes to `n + n/3 + 128` long, and then gives the stream without its size field, otherwise a metadata compression error; any other tag is an error |
| BlocksInfo.ReadDirectoryRecords | app/src/main/cpp/ABRecompressor/src/BlocksAndDirectoryInfo.cpp:41-44 | the directory loop returns what reading the records from the start offset gives, or its error |
| BlocksInfo.BlocksAndDirectoryInfo.Value | app/src/main/cpp/ABRecompressor/src/BlocksAndDirectoryInfo.cpp:28-44 | the object's state is a well-formed section: 16-byte hash, counts below 2^32, NUL-free paths |
| BlocksInfo.BlocksAndDirectoryInfo.constructor | app/src/main/cpp/ABRecompressor/src/BlocksAndDirectoryInfo.cpp:8-45 | holds the given hash, block array and directories |
| BlocksInfo.BlocksAndDirectoryInfo.Read | app/src/main/cpp/ABRecompressor/src/BlocksAndDirectoryInfo.cpp:8-45 | the constructor: places, decompresses and parses the section as `ReadMetadata` states, moving the reader as `PlaceMetadata` states |
| BlocksInfo.BlocksAndDirectoryInfo.Place | app/src/main/cpp/ABRecompressor/src/BlocksAndDirectoryInfo.cpp:10-17 | finds the compressed section and the new cursor position as `PlaceMetadata` states |
| BlocksInfo.BlocksAndDirectoryInfo.Unpack | app/src/main/cpp/ABRecompressor/src/BlocksAndDirectoryInfo.cpp:19-44 | decompresses and parses the section as `UnpackMetadata` states |
| BlocksInfo.BlocksAndDirectoryInfo.Inflate | app/src/main/cpp/ABRecompressor/src/BlocksAndDirectoryInfo.cpp:19-26 | the decompressed section is a zeroed buffer of the announced size with the decoded bytes written at its start, or the codec error |
| BlocksInfo.BlocksAndDirectoryInfo.Parse | app/src/main/cpp/ABRecompressor/src/BlocksAndDirectoryInfo.cpp:28-44 | reads hash, counts and records with a cursor starting at 16, exactly as `DecodeMetadata` defines |
| BlocksInfo.BlocksAndDirectoryInfo.ParseDirectories | app/src/main/cpp/ABRecompressor/src/BlocksAndDirectoryInfo.cpp:39-44 | reads the directory count and the records after the block records |
| BlocksInfo.BlocksAndDirectoryInfo.ReadBlockRecords | app/src/main/cpp/ABRecompressor/src/BlocksAndDirectoryInfo.cpp:33-38 | succeeds exactly when the `BlocksInfoCount` records fit and then holds them in a fresh array |
| BlocksInfo.BlocksAndDirectoryInfo.DataSize | app/src/main/cpp/ABRecompressor/src/BlocksAndDirectoryInfo.cpp:81-94 | the two u64 accumulating loops return `DataSizeOf` of the object's state |
| BlocksInfo.BlocksAndDirectoryInfo.GetRawSize | app/src/main/cpp/ABRecompressor/src/BlocksAndDirectoryInfo.cpp:96-102 | returns 16 + 4 + 4 + 10 per block + the size of every directory entry |
| BlocksInfo.BlocksAndDirectoryInfo.ToBytes | app/src/main/cpp/ABRecompressor/src/BlocksAndDirectoryInfo.cpp:47-60 | the writer receives exactly the serialised section |
| BlocksInfo.BlocksAndDirectoryInfo.WriteBlocksPart | app/src/main/cpp/ABRecompressor/src/BlocksAndDirectoryInfo.cpp:49-54 | writes the hash, the block count and the block records |
| BlocksInfo.BlocksAndDirectoryInfo.WriteDirsPart | app/src/main/cpp/ABRecompressor/src/BlocksAndDirectoryInfo.cpp:55-58 | appends the directory count and the directory records |
| BlocksInfo.BlocksAndDirectoryInfo.WriteBlockRecords | app/src/main/cpp/ABRecompressor/src/BlocksAndDirectoryInfo.cpp:52-54 | the loop appends the encoding of the first `count` blocks |
| BlocksInfo.BlocksAndDirectoryInfo.WriteDirectoryRecords | app/src/main/cpp/ABRecompressor/src/BlocksAndDirectoryInfo.cpp:56-58 | the loop appends the encoding of every directory entry |
| BlocksInfo.BlocksAndDirectoryInfo.ToBytesWith | app/src/main/cpp/ABRecompressor/src/BlocksAndDirectoryInfo.cpp:62-79 | returns `EncodedMetadata` of the object's state for the codec |
| Bundle.QuirkProfile | app/src/main/cpp/ABRecompressor/src/BundleFile.cpp:27-37 | the legacy versions mask the padding bit and skip the payload padding; every other version masks the UnityCN bit and honours the padding flag |
| Bundle.QuirkBoundaries | app/src/main/cpp/ABRecompressor/src/BundleFile.cpp:28-31 | the legacy layout is every version before 2020 and the 2020.3.x, 2021.3.x, 2022.3.x releases up to patch 34, 2 and 1; 2023 and later, or any minor other than 3, are not legacy |
| Bundle.ProbeRule | app/src/main/cpp/ABRecompressor/src/BundleFile.cpp:52-65 | the 2019.4 probe accepts exactly a run of zero bytes up to the next 16-byte boundary and rejects at the first non-zero byte |
| Bundle.HeaderAlignRule | app/src/main/cpp/ABRecompressor/src/BundleFile.cpp:48-66 | format version 7 or later always aligns; 2019.4 aligns only over zero bytes and otherwise restores the position; other versions never align |
| Bundle.MaskFlags | app/src/main/cpp/ABRecompressor/src/BundleFile.cpp:76-78 | every block keeps its sizes and has its flags AND-ed with the mask |
| Bundle.MaxCodec | app/src/main/cpp/ABRecompressor/src/BundleFile.cpp:96-101 | `mCompressionType` is the largest block codec tag, 0 for no blocks, and some block carries it |
| Bundle.BlocksPayload | app/src/main/cpp/ABRecompressor/src/BundleFile.cpp:93-111 | a successfully loaded payload is exactly `DataSize()` bytes: block by block, each slot the decoded bytes padded with zeros |
| Bundle.MaskFlagsSizes | app/src/main/cpp/ABRecompressor/src/BundleFile.cpp:76-88 | masking the flags changes neither the payload size nor the stored size |
| Bundle.SavedBlocks | app/src/main/cpp/ABRecompressor/src/BundleFile.cpp:117-132 | the saved records cover the whole payload, are never more than the loaded ones (as many unless the codec is LZMA), and carry their old flags OR-ed with the codec |
| Bundle.CompressedChunks | app/src/main/cpp/ABRecompressor/src/BundleFile.cpp:133-139 | one compressed chunk per block on success |
| Bundle.SavedHeader | app/src/main/cpp/ABRecompressor/src/BundleFile.cpp:140-158 | the new header has the same byte size as the old one |
| Bundle.BundleFile.constructor | app/src/main/cpp/ABRecompressor/src/BundleFile.cpp:8-20 | holds the header, the metadata object, the payload, the codec tag and the version quirks given |
| Bundle.BundleFile.Open | app/src/main/cpp/ABRecompressor/src/BundleFile.cpp:26-91 | `ReadBundleWithHeader`: the result and the reader position are those `Load` defines, including every error |
| Bundle.BundleFile.ReadBody | app/src/main/cpp/ABRecompressor/src/BundleFile.cpp:70-91 | the metadata, the two flag masks, the payload padding and the blocks, as `LoadBody` defines |
| Bundle.BundleFile.ReadPayload | app/src/main/cpp/ABRecompressor/src/BundleFile.cpp:84-89 | the payload, the cleared flags and the header's codec bits cleared, as `LoadBlocks` defines |
| Bundle.BundleFile.AlignHeader | app/src/main/cpp/ABRecompressor/src/BundleFile.cpp:48-66 | moves the reader and reports alignment as `HeaderAlign` defines |
| Bundle.BundleFile.MaskBlockFlags | app/src/main/cpp/ABRecompressor/src/BundleFile.cpp:76-78 | the flag loop rewrites exactly the block flags, as `MaskFlags` |
| Bundle.BundleFile.ReadBlocks | app/src/main/cpp/ABRecompressor/src/BundleFile.cpp:93-111 | the block loop fills a `DataSize()` buffer as `LoadPayload` defines, or fails with the first block's error |
| Bundle.BundleFile.ReadBlock | app/src/main/cpp/ABRecompressor/src/BundleFile.cpp:97-110 | one turn of the block loop keeps the loop invariant or reports the whole payload's error |
| Bundle.BundleFile.DecodeBlock | app/src/main/cpp/ABRecompressor/src/BundleFile.cpp:103-109 | the decoding half of one turn |
| Bundle.BundleFile.DecodeSlot | app/src/main/cpp/ABRecompressor/src/BundleFile.cpp:103 | the slot holds the decoded bytes followed by zeros; the rest of the payload is unchanged |
| Bundle.BundleFile.ToBytes | app/src/main/cpp/ABRecompressor/src/BundleFile.cpp:117-177 | `ToBytes(compressionType)` returns the bytes and leaves the state `Saved` defines, or its error |
| Bundle.BundleFile.PrepareBlocks | app/src/main/cpp/ABRecompressor/src/BundleFile.cpp:118-139 | re-chunks, tags and compresses the blocks; the records then carry the stored sizes of their chunks |
| Bundle.BundleFile.ResizeAndTag | app/src/main/cpp/ABRecompressor/src/BundleFile.cpp:118-132 | the records become `SavedBlocks` |
| Bundle.BundleFile.RechunkBlocks | app/src/main/cpp/ABRecompressor/src/BundleFile.cpp:118-128 | the LZMA re-chunking sets the first `ChunkCount` records to sizes that cover the payload |
| Bundle.BundleFile.SetChunkSizes | app/src/main/cpp/ABRecompressor/src/BundleFile.cpp:121-127 | the loop sets each chunk's size and leaves the records after them alone |
| Bundle.BundleFile.TagBlocks | app/src/main/cpp/ABRecompressor/src/BundleFile.cpp:130-132 | the loop ORs the codec into the first `count` records' flags and leaves the rest alone |
| Bundle.BundleFile.CompressBlocks | app/src/main/cpp/ABRecompressor/src/BundleFile.cpp:133-139 | the loop compresses each block's payload slice and records its stored size, or fails with the first error |
| Bundle.BundleFile.CompressBlock | app/src/main/cpp/ABRecompressor/src/BundleFile.cpp:135-139 | one turn of the compression loop keeps its invariant or reports the whole run's error |
| Bundle.BundleFile.Assemble | app/src/main/cpp/ABRecompressor/src/BundleFile.cpp:140-177 | the metadata, header and writes as `Assembled` defines |
| Bundle.BundleFile.AssembleWith | app/src/main/cpp/ABRecompressor/src/BundleFile.cpp:140-177 | the same on the bundle's parts |
| Bundle.BundleFile.WriteSaved | app/src/main/cpp/ABRecompressor/src/BundleFile.cpp:155-175 | the new header, then the writes into a buffer of its `mSize` bytes, as `Finished` defines |
| Bundle.BundleFile.SizeHeader | app/src/main/cpp/ABRecompressor/src/BundleFile.cpp:141-158 | sets both metadata sizes, the total size and the LZ4HC codec bits |
| Bundle.BundleFile.SaveSize | app/src/main/cpp/ABRecompressor/src/BundleFile.cpp:143-153 | the total is the number of bytes the writes emit, in their order |
| Bundle.BundleFile.StoredSize | app/src/main/cpp/ABRecompressor/src/BundleFile.cpp:151-153 | the size loop returns the stored block sizes summed |
| Bundle.BundleFile.WriteLayout | app/src/main/cpp/ABRecompressor/src/BundleFile.cpp:155-175 | the buffer receives header, padding, metadata, padding, blocks, metadata in that order, or the overflow error |
| Bundle.BundleFile.WriteFront | app/src/main/cpp/ABRecompressor/src/BundleFile.cpp:159-168 | the writes before the blocks succeed iff they fit, and then emit `LayoutFront` |
| Bundle.BundleFile.WritePart | app/src/main/cpp/ABRecompressor/src/BundleFile.cpp:163-165 | writes the part when it is on, succeeding iff it fits |
| Bundle.BundleFile.WritePadding | app/src/main/cpp/ABRecompressor/src/BundleFile.cpp:160-162 | pads to the next 16-byte boundary when on, succeeding iff the padding fits |
| Bundle.BundleFile.WriteChunks | app/src/main/cpp/ABRecompressor/src/BundleFile.cpp:169-172 | the loop writes the compressed blocks one after the other, succeeding iff they all fit |
| Bundle.BundleFile.WriteChunk | app/src/main/cpp/ABRecompressor/src/BundleFile.cpp:170 | one turn of the block write loop |
| BundleLayout.ChunkCountFits | app/src/main/cpp/ABRecompressor/src/BundleFile.cpp:118-127 | a payload of at most `n` full chunks needs at most `n` chunks, so the record array is never overrun |
| BundleLayout.ChunkSplit | app/src/main/cpp/ABRecompressor/src/BundleFile.cpp:120 | the chunk count splits the payload into full chunks and a last chunk of 1 to `UINT32_MAX` bytes |
| BundleLayout.RechunkedCovers | app/src/main/cpp/ABRecompressor/src/BundleFile.cpp:118-128 | the corrected chunks cover the payload exactly, each 1 to `UINT32_MAX` bytes, and agree with the source's loop whenever the total is not a multiple of `UINT32_MAX` |
| BundleLayout.RechunkedAsWrittenDropsLastChunk | app/src/main/cpp/ABRecompressor/src/BundleFile.cpp:122-124 | as written, a non-zero multiple of `UINT32_MAX` bytes gets a last chunk of 0 bytes and the chunks cover one chunk less than the payload |
| BundleLayout.RechunkedAsWrittenExample | app/src/main/cpp/ABRecompressor/src/BundleFile.cpp:122-124 | one full chunk of payload is re-chunked into a single block of 0 bytes |
| BundleLayout.TagFlags | app/src/main/cpp/ABRecompressor/src/BundleFile.cpp:130-132 | each record keeps everything but has the codec OR-ed into its flags |
| BundleLayout.TagFlagsSize | app/src/main/cpp/ABRecompressor/src/BundleFile.cpp:130-132 | tagging leaves the payload size alone |
| BundleLayout.WithStoredSizes | app/src/main/cpp/ABRecompressor/src/BundleFile.cpp:137 | each record gets its chunk's length truncated to 32 bits as its `compressedSize` |
| BundleLayout.WithStoredSizesTotals | app/src/main/cpp/ABRecompressor/src/BundleFile.cpp:151-153 | with chunks under 4 GiB the stored sizes add up to the bytes written |
| BundleLayout.WithStoredSizesPayload | app/src/main/cpp/ABRecompressor/src/BundleFile.cpp:137 | recording the stored sizes leaves the payload sizes alone |
| BundleLayout.SaveSizeAsWrittenAgrees | app/src/main/cpp/ABRecompressor/src/BundleFile.cpp:143-153 | the source's size sum equals the written length unless the metadata goes at the end and the payload padding is on |
| BundleLayout.SaveSizeAsWrittenOverrun | app/src/main/cpp/ABRecompressor/src/BundleFile.cpp:143-175 | with the metadata at the end and padding on, a 16-byte header and 1 byte of metadata get a 32-byte buffer for 33 bytes of output |
| BundleLayout.Layout | app/src/main/cpp/ABRecompressor/src/BundleFile.cpp:159-175 | the emitted bytes are as long as `LayoutLength` |
| BundleHeader.HeaderBytes | app/src/main/cpp/ABRecompressor/src/BundleFile.cpp:159 | the header's bytes are `GetSize()` long |
| Cursor.Writer.WriteBytes | app/src/main/cpp/ABRecompressor/src/BundleFile.cpp:164 | writes the bytes at the position, succeeding iff they fit; a failed write changes nothing |
| Cursor.Writer.Align | app/src/main/cpp/ABRecompressor/src/BundleFile.cpp:161 | pads with zeros to the next multiple of 16 strictly above the position, succeeding iff that fits |
| Cursor.Reader.ReadByte | app/src/main/cpp/ABRecompressor/src/BundleFile.cpp:58 | returns the byte at the position and advances, or fails at the end of the data without moving |
| Cursor.Reader.Align | app/src/main/cpp/ABRecompressor/src/BundleFile.cpp:50 | moves to the next multiple of 16 strictly above the position |
| Cursor.AlignUp | app/src/main/cpp/ABRecompressor/src/BundleFile.cpp:50 | the aligned position is a multiple of 16, above the position by 1 to 16 |
| SaveLoad.SaveThenLoad | app/src/main/cpp/ABRecompressor/src/BundleFile.cpp:26-177 | reading back the bytes `ToBytes(codec)` wrote, from just after their header, succeeds and gives the saved payload, the directory entries and hash, the saved records with their flags cleared, the loaded header flags, the same quirks, alignment and metadata placement, the codec as the compression type whenever there are blocks, and a state that can be saved again |
| SaveLoad.SavedPieces | app/src/main/cpp/ABRecompressor/src/BundleFile.cpp:117-177 | what a successful `ToBytes(codec)` wrote: one chunk per re-chunked record, each the codec's output for that record's payload slice; the new metadata compressed with LZ4HC; a header of the old size with the new section sizes, the total and the LZ4HC bits; and where header, padding, metadata and chunks lie in the bytes |
| SaveLoad.SavedBlocksPart | app/src/main/cpp/ABRecompressor/src/BundleFile.cpp:118-139 | the records a save writes carry only the codec tag, cover the payload, and their stored sizes add up to the chunks' bytes |
| SaveLoad.SavedLayoutPart | app/src/main/cpp/ABRecompressor/src/BundleFile.cpp:140-175 | the header and layout written around the chunks: the metadata is the new records' metadata compressed with LZ4HC, the header's flags are the old ones with the LZ4HC bits, and the parts lie where the layout puts them |
| SaveLoad.CompressedChunksMember | app/src/main/cpp/ABRecompressor/src/BundleFile.cpp:133-139 | the compression loop's `i`-th chunk is the codec's output for the bytes of block `i`, the `uncompressedSize` bytes after the sizes before it |
| SaveLoad.ChunksDecode | app/src/main/cpp/ABRecompressor/src/BundleFile.cpp:93-111 | the block loop over chunks stored one after the other, each decoding to the payload bytes its record spans, returns exactly those bytes |
| SaveLoad.PayloadReadBack | app/src/main/cpp/ABRecompressor/src/BundleFile.cpp:84-111 | the records a save wrote, read back with bit 0x100 cleared, pass the size check and decode to the saved payload; the largest tag is the codec |
| SaveLoad.RecordsReadBack | app/src/main/cpp/ABRecompressor/src/BundleFile.cpp:76-78 | each written record, with bit 0x100 cleared, keeps its chunk's length and its block's size and names the codec |
| SaveLoad.MetadataReadBack | app/src/main/cpp/ABRecompressor/src/BundleFile.cpp:70-74 | the metadata section written before the blocks or at the end is found, inflated and parsed back to the metadata written |
| SaveLoad.AlignReadBack | app/src/main/cpp/ABRecompressor/src/BundleFile.cpp:48-66 | the header alignment step over the written file stops exactly where the writer's header padding ends, given a 2019.4 unaligned file fails the zero probe |
| SaveLoad.BodyReadBack | app/src/main/cpp/ABRecompressor/src/BundleFile.cpp:70-84 | after the header padding, the loader reads the written metadata and starts the blocks behind its padding |
| SaveLoad.ReloadHead | app/src/main/cpp/ABRecompressor/src/BundleFile.cpp:39-84 | on a file as `ToBytes` writes it, the key is still accepted and the loader reaches the chunks at the offset the writer put them |
| SaveLoad.ReloadTail | app/src/main/cpp/ABRecompressor/src/BundleFile.cpp:84-111 | the loader's last step on the written chunks gives the saved payload, the cleared records and the codec |
| SaveLoad.ReloadedState | app/src/main/cpp/ABRecompressor/src/BundleFile.cpp:86-89 | the state the loader rebuilds keeps the saved header with the loaded flags and the saved directory entries, and has the loaded shape again |
| SaveLoad.LoadedAgain | app/src/main/cpp/ABRecompressor/src/BundleFile.cpp:86-89 | clearing every record flag and the header's codec bits leaves a state that can be saved and has the shape the loader gives |
| SaveLoad.FinishedExact | app/src/main/cpp/ABRecompressor/src/BundleFile.cpp:143-175 | a successful final write gives the saved header and exactly the layout's bytes behind it, and the header's `mSize` is the file length |
| SaveLoad.SavedFlags | app/src/main/cpp/ABRecompressor/src/BundleFile.cpp:158 | OR-ing the LZ4HC bits into a header without codec bits sets the metadata codec to 3 and keeps the other flag bits, and clearing the codec bits gives back the old flags |
| SaveLoad.KeyCarried | app/src/main/cpp/ABRecompressor/src/BundleFile.cpp:39-46 | a key accepted for the loaded header is accepted for the saved one, since the save keeps both bits the mask can name |
| ModBean.IsDelete | app/src/main/kotlin/top/laoxin/modmanager/bean/ModBean.kt:98-103 | returns the stored mod exactly when no scanned mod has its path and name, and null otherwise |
| ModBean.IsNew | app/src/main/kotlin/top/laoxin/modmanager/bean/ModBean.kt:148-155 | returns the scanned mod exactly when no stored mod has its path and name, and null otherwise |
| ModBean.ScannedNotDeleted | app/src/main/kotlin/top/laoxin/modmanager/bean/ModBean.kt:98-103 | a mod the scan found is never reported deleted |
| ModBean.DeleteNewDual | app/src/main/kotlin/top/laoxin/modmanager/bean/ModBean.kt:98-155 | a stored mod is kept exactly when some scanned mod is not new with respect to it |
| ModBean.Updated | app/src/main/kotlin/top/laoxin/modmanager/bean/ModBean.kt:121-136 | the copy keeps id, name, path, password, isEnable and package, takes every other field (date, encryption and virtual paths included) from the scan, and no longer differs from it |
| ModBean.FirstHit | app/src/main/kotlin/top/laoxin/modmanager/bean/ModBean.kt:107-108 | the first scanned record with the same path and name that differs in a compared field, or -1 when none does |
| ModBean.IsUpdate | app/src/main/kotlin/top/laoxin/modmanager/bean/ModBean.kt:105-146 | null for an encrypted mod or when no scanned record is a hit; otherwise the copy built from the first hit |
| ModBean.DateIsNotCompared | app/src/main/kotlin/top/laoxin/modmanager/bean/ModBean.kt:112-114 | a scanned record that differs only in its date is not an update |
| ModBean.UpdateSettles | app/src/main/kotlin/top/laoxin/modmanager/bean/ModBean.kt:105-146 | the updated copy checked again against the same scanned record finds nothing to update |
| LegacyModBean.EqualsIgnoreIdMeaning | app/src/main/java/top/laoxin/modmanager/bean/ModBean.kt:142-163 | `equalsIgnoreId` holds exactly when the records agree once id, password and isEnable are equalised; every record equals itself |
| LegacyModBean.IsDelete | app/src/main/java/top/laoxin/modmanager/bean/ModBean.kt:166-171 | returns the mod exactly when no scanned mod has its path and name |
| LegacyModBean.IsNew | app/src/main/java/top/laoxin/modmanager/bean/ModBean.kt:217-224 | returns the scanned mod exactly when no stored mod has its path and name |
| LegacyModBean.CopyNotDeleted | app/src/main/java/top/laoxin/modmanager/bean/ModBean.kt:166-171 | a mod is never reported deleted by a scan holding a copy of it equal up to id |
| LegacyModBean.Updated | app/src/main/java/top/laoxin/modmanager/bean/ModBean.kt:190-204 | the copy keeps id, name, path, password, isEnable and package, takes the rest from the scan, and no longer differs from it |
| LegacyModBean.FirstHit | app/src/main/java/top/laoxin/modmanager/bean/ModBean.kt:175-189 | the first scanned hit, or -1 |
| LegacyModBean.IsUpdate | app/src/main/java/top/laoxin/modmanager/bean/ModBean.kt:173-215 | null for an encrypted mod or without a hit; otherwise the copy built from the first hit |
| LegacyModBean.DateIsCompared | app/src/main/java/top/laoxin/modmanager/bean/ModBean.kt:181 | in this tree a new date alone is an update, and the copy takes that date |
| LegacyModBean.CopyIsNoUpdate | app/src/main/java/top/laoxin/modmanager/bean/ModBean.kt:173-215 | a scanned copy equal up to id, password and isEnable never triggers an update |
| GameInfo.Defaults | app/src/main/kotlin/top/laoxin/modmanager/constant/GameInfoConstant.kt:9-82 | three built-in entries, the placeholder first, with distinct package names and one mod type per game path |
| EnableMods.EntriesMember | app/src/main/kotlin/top/laoxin/modmanager/domain/usercase/mod/EnableModsUseCase.kt:545-549 | the flattened (mod, path) list holds a pair exactly when the mod is a candidate listing that path |
| EnableMods.ModsAtMember | app/src/main/kotlin/top/laoxin/modmanager/domain/usercase/mod/EnableModsUseCase.kt:547 | `pathToMods[p]` holds a mod exactly when the pair (mod, p) was visited |
| EnableMods.ModsAtKey | app/src/main/kotlin/top/laoxin/modmanager/domain/usercase/mod/EnableModsUseCase.kt:547 | the map's keys are exactly the paths some mod lists |
| EnableMods.AddEntry | app/src/main/kotlin/top/laoxin/modmanager/domain/usercase/mod/EnableModsUseCase.kt:547 | one `getOrPut(path).add(mod)` keeps the map and its key order in step with the visited pairs |
| EnableMods.BuildIndex | app/src/main/kotlin/top/laoxin/modmanager/domain/usercase/mod/EnableModsUseCase.kt:544-549 | the double loop builds the `getOrPut` map of every (mod, path) pair |
| EnableMods.GatherMember | app/src/main/kotlin/top/laoxin/modmanager/domain/usercase/mod/EnableModsUseCase.kt:552-557 | the conflict set holds a mod exactly when it was there already or it is listed under some path with more than `min` mods |
| EnableMods.GatherDistinct | app/src/main/kotlin/top/laoxin/modmanager/domain/usercase/mod/EnableModsUseCase.kt:552-557 | the conflict set never holds a mod twice |
| EnableMods.MutualConflictMember | app/src/main/kotlin/top/laoxin/modmanager/domain/usercase/mod/EnableModsUseCase.kt:540-561 | from two candidates up, a candidate conflicts exactly when one of its paths is used twice, and is kept exactly when none is |
| EnableMods.MutualConflictsShape | app/src/main/kotlin/top/laoxin/modmanager/domain/usercase/mod/EnableModsUseCase.kt:540-561 | fewer than two candidates never conflict; each conflict is reported once; the kept mods are the input minus the conflicts, in order |
| EnableMods.SharedPathConflicts | app/src/main/kotlin/top/laoxin/modmanager/domain/usercase/mod/EnableModsUseCase.kt:540-561 | two different candidates touching one path both conflict |
| EnableMods.DetectMutualConflicts | app/src/main/kotlin/top/laoxin/modmanager/domain/usercase/mod/EnableModsUseCase.kt:540-561 | the source's two loops compute `MutualConflicts` |
| EnableMods.AllPathsMember | app/src/main/kotlin/top/laoxin/modmanager/domain/usercase/mod/EnableModsUseCase.kt:584-587 | the visited paths are exactly those some candidate lists |
| EnableMods.FreeMeaning | app/src/main/kotlin/top/laoxin/modmanager/domain/usercase/mod/EnableModsUseCase.kt:584-597 | a candidate passes exactly when it shares no path with any enabled mod |
| EnableMods.HitMeaning | app/src/main/kotlin/top/laoxin/modmanager/domain/usercase/mod/EnableModsUseCase.kt:584-597 | an enabled mod is reported exactly when some candidate shares a path with it, and only once |
| EnableMods.EnabledConflictsMeaning | app/src/main/kotlin/top/laoxin/modmanager/domain/usercase/mod/EnableModsUseCase.kt:567-601 | without enabled mods nothing conflicts; a candidate is kept exactly when it overlaps no enabled mod; the conflict list holds, once each, the enabled mods some candidate overlaps |
| EnableMods.DetectEnabledConflicts | app/src/main/kotlin/top/laoxin/modmanager/domain/usercase/mod/EnableModsUseCase.kt:567-601 | the source's loops compute `EnabledConflicts` |
| EnableMods.ScanPaths | app/src/main/kotlin/top/laoxin/modmanager/domain/usercase/mod/EnableModsUseCase.kt:586-593 | the inner loop adds the enabled mods of every path found and flags the candidate exactly when some path is used |
| EnableMods.GatherStep | app/src/main/kotlin/top/laoxin/modmanager/domain/usercase/mod/EnableModsUseCase.kt:590-592 | one more path adds its enabled mods to the set |
| EnableFlow.FirstEnabled | app/src/main/kotlin/top/laoxin/modmanager/domain/usercase/mod/EnableModsUseCase.kt:144-347 | the first mod at or after an index that is enabled successfully, or -1 when none is |
| EnableFlow.FirstRestored | app/src/main/kotlin/top/laoxin/modmanager/domain/usercase/mod/EnableModsUseCase.kt:391-513 | the first mod at or after an index whose restore succeeds, or -1 |
| EnableFlow.EnableModsUseCase.constructor | app/src/main/kotlin/top/laoxin/modmanager/domain/usercase/mod/EnableModsUseCase.kt:50 | a new use case has no cancel request |
| EnableFlow.EnableModsUseCase.Cancel | app/src/main/kotlin/top/laoxin/modmanager/domain/usercase/mod/EnableModsUseCase.kt:533-535 | `cancel()` sets the flag and nothing else |
| EnableFlow.EnableModsUseCase.Execute | app/src/main/kotlin/top/laoxin/modmanager/domain/usercase/mod/EnableModsUseCase.kt:58-373 | `execute`: the last state emitted and the flag afterwards are those `ExecuteResult` gives |
| EnableFlow.EnableModsUseCase.EnableLoop | app/src/main/kotlin/top/laoxin/modmanager/domain/usercase/mod/EnableModsUseCase.kt:144-348 | the loop tallies the mods it visits, and stops after the first success exactly when the flag is set and some mod can be enabled |
| EnableFlow.EnableModsUseCase.Disable | app/src/main/kotlin/top/laoxin/modmanager/domain/usercase/mod/EnableModsUseCase.kt:375-531 | `disable`: the last state, the flag afterwards and the mods deleted from the database are those `DisableResult` gives |
| EnableFlow.EnableModsUseCase.DisableLoop | app/src/main/kotlin/top/laoxin/modmanager/domain/usercase/mod/EnableModsUseCase.kt:391-514 | the loop tallies the mods it visits, and stops after the first restored mod exactly when the flag is set and some mod can be restored |
| EnableFlow.AsEnabled | app/src/main/kotlin/top/laoxin/modmanager/domain/usercase/mod/EnableModsUseCase.kt:326 | each success is recorded as the mod with isEnable set |
| EnableFlow.EnableTallyFailures | app/src/main/kotlin/top/laoxin/modmanager/domain/usercase/mod/EnableModsUseCase.kt:144-300 | every visited mod that fails lands in the list of its failure, in visiting order |
| EnableFlow.EnableTallySucceeded | app/src/main/kotlin/top/laoxin/modmanager/domain/usercase/mod/EnableModsUseCase.kt:325-326 | every success is recorded, in order, as an enabled copy |
| EnableFlow.EnableTallyCount | app/src/main/kotlin/top/laoxin/modmanager/domain/usercase/mod/EnableModsUseCase.kt:144-348 | each visited mod lands in exactly one of the five lists |
| EnableFlow.ProcessedAreCandidates | app/src/main/kotlin/top/laoxin/modmanager/domain/usercase/mod/EnableModsUseCase.kt:125-141 | every mod left after both conflict checks is one of the candidates |
| EnableFlow.SucceededFrom | app/src/main/kotlin/top/laoxin/modmanager/domain/usercase/mod/EnableModsUseCase.kt:325-326 | the recorded successes are enabled copies of visited mods that were turned on |
| EnableFlow.ExecuteSucceededAreEnabled | app/src/main/kotlin/top/laoxin/modmanager/domain/usercase/mod/EnableModsUseCase.kt:58-373 | every reported success is an enabled copy of a disabled candidate that passed validation, backup and enabling |
| EnableFlow.ExecuteCounts | app/src/main/kotlin/top/laoxin/modmanager/domain/usercase/mod/EnableModsUseCase.kt:329-369 | `enabledCount` is the number of successes, `skippedCount` the password, missing-file and both conflict lists; a finished run sorts every processed mod into exactly one list |
| EnableFlow.WithOutcomeNone | app/src/main/kotlin/top/laoxin/modmanager/domain/usercase/mod/EnableModsUseCase.kt:144-300 | no mod has an outcome none of them has |
| EnableFlow.CanceledRunEnablesOne | app/src/main/kotlin/top/laoxin/modmanager/domain/usercase/mod/EnableModsUseCase.kt:328-347 | with the flag set, the loop enables exactly one mod when some mod can be enabled |
| EnableFlow.StaleCancelEnablesOne | app/src/main/kotlin/top/laoxin/modmanager/domain/usercase/mod/EnableModsUseCase.kt:328-347 | with the flag set at the start (a `cancel()` left from an earlier run counts), `execute` reports Cancel with exactly one success and clears the flag |
| EnableFlow.AsDisabled | app/src/main/kotlin/top/laoxin/modmanager/domain/usercase/mod/EnableModsUseCase.kt:467 | each disabled mod is reported as a copy with isEnable cleared |
| EnableFlow.DisableTallyPartition | app/src/main/kotlin/top/laoxin/modmanager/domain/usercase/mod/EnableModsUseCase.kt:391-514 | a mod is reported failed exactly when its restore fails; every other one is reported as a disabled copy; exactly the restored mods whose file is gone are deleted from the database |
| EnableFlow.RestoredModsNone | app/src/main/kotlin/top/laoxin/modmanager/domain/usercase/mod/EnableModsUseCase.kt:391-514 | no mod is restored when none of them can be |
| EnableFlow.CanceledRunDisablesOne | app/src/main/kotlin/top/laoxin/modmanager/domain/usercase/mod/EnableModsUseCase.kt:500-513 | with the flag set, the loop disables exactly one mod when some mod can be restored |
| EnableFlow.StaleCancelDisablesOne | app/src/main/kotlin/top/laoxin/modmanager/domain/usercase/mod/EnableModsUseCase.kt:500-513 | with the flag set, `disable` reports Cancel with exactly one disabled mod and clears the flag |
| EnableFlow.DisableCounts | app/src/main/kotlin/top/laoxin/modmanager/domain/usercase/mod/EnableModsUseCase.kt:517-530 | a finished `disable` accounts for every enabled candidate once and skips none |
| EnableFlow.DisableRemovesReported | app/src/main/kotlin/top/laoxin/modmanager/domain/usercase/mod/EnableModsUseCase.kt:375-531 | `disable` only deletes from the database mods it also reports as disabled |
| EnableFlow.RemovedAreDisabled | app/src/main/kotlin/top/laoxin/modmanager/domain/usercase/mod/EnableModsUseCase.kt:470-498 | a mod the loop deletes from the database is also reported as disabled |
| ScanSync.AssociateByMember | app/src/main/kotlin/top/laoxin/modmanager/domain/usercase/mod/ScanAndSyncModsUseCase.kt:464-465 | the map's keys are the identities in the list, each mapping to the last mod carrying it |
| ScanSync.LastWithKeyUnique | app/src/main/kotlin/top/laoxin/modmanager/domain/usercase/mod/ScanAndSyncModsUseCase.kt:464-465 | only one mod of a list is the last with a given identity |
| ScanSync.Refreshed | app/src/main/kotlin/top/laoxin/modmanager/domain/usercase/mod/ScanAndSyncModsUseCase.kt:483-491 | the update record is the scanned mod keeping the stored id, switch state and password |
| ScanSync.NeedsUpdateMeaning | app/src/main/kotlin/top/laoxin/modmanager/domain/usercase/mod/ScanAndSyncModsUseCase.kt:537-551 | no change needs no update; a new description of an unencrypted mod never does, a new icon does exactly when it differs; an encrypted mod's icon and description count only while its password is empty |
| ScanSync.RefreshedSettles | app/src/main/kotlin/top/laoxin/modmanager/domain/usercase/mod/ScanAndSyncModsUseCase.kt:483-551 | a refreshed record needs no further update against the same scan |
| ScanSync.Diff | app/src/main/kotlin/top/laoxin/modmanager/domain/usercase/mod/ScanAndSyncModsUseCase.kt:453-535 | the two loops and the writes compute `SyncToDatabase` |
| ScanSync.AddOrUpdate | app/src/main/kotlin/top/laoxin/modmanager/domain/usercase/mod/ScanAndSyncModsUseCase.kt:474-494 | the loop over the scanned mods produces `Added` and `Updates` |
| ScanSync.DeleteMissing | app/src/main/kotlin/top/laoxin/modmanager/domain/usercase/mod/ScanAndSyncModsUseCase.kt:496-510 | the loop over the stored mods produces the deleted and the reported-lost lists |
| ScanSync.AddedMember | app/src/main/kotlin/top/laoxin/modmanager/domain/usercase/mod/ScanAndSyncModsUseCase.kt:474-479 | a mod is added exactly when it is the scanned mod for some key that is not stored |
| ScanSync.UpdatesMember | app/src/main/kotlin/top/laoxin/modmanager/domain/usercase/mod/ScanAndSyncModsUseCase.kt:480-493 | a record is written as an update exactly when it refreshes an outdated stored mod of a scanned key |
| ScanSync.RemovedMember | app/src/main/kotlin/top/laoxin/modmanager/domain/usercase/mod/ScanAndSyncModsUseCase.kt:496-508 | a stored mod is listed exactly when its key is not scanned, its path lies under no skipped path, and its switch state is the one the list is for |
| ScanSync.KeyedMod | app/src/main/kotlin/top/laoxin/modmanager/domain/usercase/mod/ScanAndSyncModsUseCase.kt:464-465 | the mod a key stands for is the last one carrying it |
| ScanSync.SyncAdds | app/src/main/kotlin/top/laoxin/modmanager/domain/usercase/mod/ScanAndSyncModsUseCase.kt:453-535 | `toAdd` holds exactly the scanned mods whose identity is not stored (for repeated identities, the last scanned one) |
| ScanSync.SyncUpdates | app/src/main/kotlin/top/laoxin/modmanager/domain/usercase/mod/ScanAndSyncModsUseCase.kt:453-535 | `toUpdate` holds exactly the refreshed copies of stored mods a scanned mod with the same identity makes outdated |
| ScanSync.SyncRemoves | app/src/main/kotlin/top/laoxin/modmanager/domain/usercase/mod/ScanAndSyncModsUseCase.kt:453-535 | the deleted and lost lists hold exactly the stored mods, disabled or enabled, whose identity the scan no longer has and whose path is under no skipped path |
| ScanSync.SkippedNeverDeleted | app/src/main/kotlin/top/laoxin/modmanager/domain/usercase/mod/ScanAndSyncModsUseCase.kt:499 | a stored mod under a skipped path is neither deleted nor reported lost |
| ScanSync.SyncFailureOnlyReports | app/src/main/kotlin/top/laoxin/modmanager/domain/usercase/mod/ScanAndSyncModsUseCase.kt:512-533 | a failing database changes nothing but the error list, which gains at most one message |
| ScanSync.ShouldSkipScan | app/src/main/kotlin/top/laoxin/modmanager/domain/usercase/mod/ScanAndSyncModsUseCase.kt:553-574 | no record or an unreadable file is never skipped; an unchanged time and size always skip; a skip means either those match or the stored non-empty md5 matches |
| ModScan.NoExtensionIsGameFile | app/src/main/kotlin/top/laoxin/modmanager/data/service/TraditionalModScanServiceImpl.kt:593-596 | a path without '.' has an empty extension and is never a non-game file |
| ModScan.ImagesAreNonGame | app/src/main/kotlin/top/laoxin/modmanager/data/service/TraditionalModScanServiceImpl.kt:37-50 | every extension isImageFile accepts is in the non-game extension set |
| ModScan.ReadmeNameMeaning | app/src/main/kotlin/top/laoxin/modmanager/data/service/TraditionalModScanServiceImpl.kt:914-917 | a file is a readme exactly when its lower-cased name starts with "readme" or ends with ".txt" (the "说明.txt" case is subsumed) |
| ModScan.FirstListing | app/src/main/kotlin/top/laoxin/modmanager/data/service/TraditionalModScanServiceImpl.kt:532-545 | the first configured directory at or after the start whose listing holds the file name, with no earlier one holding it, or -1 when none does |
| ModScan.FirstParentDir | app/src/main/kotlin/top/laoxin/modmanager/data/service/TraditionalModScanServiceImpl.kt:404-415 | the first configured directory whose name is the file's parent directory name, with no earlier one matching, or -1 |
| ModScan.DirEndInRange | app/src/main/kotlin/top/laoxin/modmanager/data/service/TraditionalModScanServiceImpl.kt:415-419 | when the parent carries the directory name, the end of its first case-insensitive occurrence lies inside the path, so the substring is in range |
| ModScan.PlaceByFileNameMeaning | app/src/main/kotlin/top/laoxin/modmanager/data/service/TraditionalModScanServiceImpl.kt:518-548 | B-mode places a file iff it is a game file and some configured listing holds its name; the first such directory gives the type index and the game path, the parent directory (or ".") the group |
| ModScan.PlacedByDirName | app/src/main/kotlin/top/laoxin/modmanager/data/service/TraditionalModScanServiceImpl.kt:394-455 | an A-mode placement comes from a game file whose parent is named like the first matching directory, whose listing exists, with the group a prefix of the path ending at the directory name |
| ModScan.UnlistedDirDropsFile | app/src/main/kotlin/top/laoxin/modmanager/data/service/TraditionalModScanServiceImpl.kt:426-454 | when the first directory named like the parent has no listing, the file is not placed and no later directory is tried |
| ModScan.UnmatchedParentDropsFile | app/src/main/kotlin/top/laoxin/modmanager/data/service/TraditionalModScanServiceImpl.kt:404-415 | a file whose parent is named like no configured directory is not placed in A-mode |
| ModScan.GroupKeys | app/src/main/kotlin/top/laoxin/modmanager/data/service/TraditionalModScanServiceImpl.kt:447-449 | a key is a group exactly when it is in the insertion-ordered key list, and exactly when some file was placed under it |
| ModScan.GroupFiles | app/src/main/kotlin/top/laoxin/modmanager/data/service/TraditionalModScanServiceImpl.kt:447-449 | each group holds, in order, exactly the files placed in it |
| ModScan.GroupPaths | app/src/main/kotlin/top/laoxin/modmanager/data/service/TraditionalModScanServiceImpl.kt:445-449 | each group is non-empty, its game paths align index by index with its files, and it keeps the type index of its first file |
| ModScan.GroupKeysDistinct | app/src/main/kotlin/top/laoxin/modmanager/data/service/TraditionalModScanServiceImpl.kt:447 | getOrPut creates each group once: the key list has no duplicates |
| ModScan.FileInOneGroup | app/src/main/kotlin/top/laoxin/modmanager/data/service/TraditionalModScanServiceImpl.kt:447-449 | a file is in group k exactly when it is one of the files and its placement key is k |
| ModScan.IdentifyGroups | app/src/main/kotlin/top/laoxin/modmanager/data/service/TraditionalModScanServiceImpl.kt:394-454 | the loop over the files yields exactly the grouping function's groups and key order, for either mode |
| ModScan.PlaceFile | app/src/main/kotlin/top/laoxin/modmanager/data/service/TraditionalModScanServiceImpl.kt:401-402 | one loop step: non-game files are skipped, the rest placed as the mode says |
| ModScan.MatchByFileName | app/src/main/kotlin/top/laoxin/modmanager/data/service/TraditionalModScanServiceImpl.kt:532-546 | the B-mode inner loop stops at the first listing holding the name and yields the B-mode placement |
| ModScan.MatchByDirName | app/src/main/kotlin/top/laoxin/modmanager/data/service/TraditionalModScanServiceImpl.kt:404-455 | the A-mode inner loop stops at the first directory named like the parent, whether or not the file is listed, and yields the A-mode placement |
| ModScan.MatchUnder | app/src/main/kotlin/top/laoxin/modmanager/data/service/TraditionalModScanServiceImpl.kt:416-454 | once the directory is found, the relative path, listing check, group key and game path are those of the A-mode placement |
| ModScan.FirstParentDirAt | app/src/main/kotlin/top/laoxin/modmanager/data/service/TraditionalModScanServiceImpl.kt:404-415 | a matching directory with no earlier match is the first match |
| ModScan.FirstParentDirNone | app/src/main/kotlin/top/laoxin/modmanager/data/service/TraditionalModScanServiceImpl.kt:404-415 | with no matching directory the search yields -1 |
| ModScan.RemoveAll | app/src/main/kotlin/top/laoxin/modmanager/data/service/TraditionalModScanServiceImpl.kt:768 | replace with "" never lengthens the text |
| ModScan.RemoveRootSuffix | app/src/main/kotlin/top/laoxin/modmanager/data/service/TraditionalModScanServiceImpl.kt:768 | removing "(.)" from a name without '(' ending in "(.)" takes off exactly that suffix |
| ModScan.RemoveAbsent | app/src/main/kotlin/top/laoxin/modmanager/data/service/TraditionalModScanServiceImpl.kt:768 | nothing is removed from a text lacking the pattern's first character |
| ModScan.RootModName | app/src/main/kotlin/top/laoxin/modmanager/data/service/TraditionalModScanServiceImpl.kt:897-903 | the root group is generated as "name(.)" and stored as the source name |
| ModScan.WholeSourceModName | app/src/main/kotlin/top/laoxin/modmanager/data/service/TraditionalModScanServiceImpl.kt:897-903 | an empty relative path gives the source name |
| ModScan.NestedModName | app/src/main/kotlin/top/laoxin/modmanager/data/service/TraditionalModScanServiceImpl.kt:897-903 | a nested relative path gives the source name followed by its directory names joined by '\|' in parentheses |
| ModScan.Take | app/src/main/kotlin/top/laoxin/modmanager/data/service/TraditionalModScanServiceImpl.kt:743 | take(n) yields a prefix of at most n characters, the whole text when it is short enough |
| ModScan.CreateModPaths | app/src/main/kotlin/top/laoxin/modmanager/data/service/TraditionalModScanServiceImpl.kt:619-647 | an archive mod keeps its entries relative and lives at the archive; a folder mod's files are prefixed with the folder and it lives in its sub-directory (the folder for the root or empty path); game paths stay aligned; the stored relative path is absent only when empty |
| ModScan.PicturesMeaning | app/src/main/kotlin/top/laoxin/modmanager/data/service/TraditionalModScanServiceImpl.kt:650-709 | no pictures give no icon and no list; an encrypted archive keeps entry paths, an unencrypted one names the webp cache paths, a folder gives full paths; the icon is always the first picture's |
| ModScan.ReadmeMeaning | app/src/main/kotlin/top/laoxin/modmanager/data/service/TraditionalModScanServiceImpl.kt:711-760 | an encrypted source is marked, a source without readme has no paths and no text, a folder's description is at most 2000 characters read from its readme or else the root readme, empty when the read fails, and a missing readme gives ".../null" |
| ModScan.PackagePathUnchanged | app/src/main/kotlin/top/laoxin/modmanager/data/service/TraditionalModScanServiceImpl.kt:483-492 | the integrated-package rewrite of virtualPaths gives every record the value it already has |
| ModScan.ModsAreGroupMods | app/src/main/kotlin/top/laoxin/modmanager/data/service/TraditionalModScanServiceImpl.kt:458-492 | the mods are the groups' mods, one per group, in group order |
| ModScan.GroupModMeaning | app/src/main/kotlin/top/laoxin/modmanager/data/service/TraditionalModScanServiceImpl.kt:458-481 | a group's mod is named after the group, holds exactly its files (prefixed for a folder), never none, with their game paths and the type of the directory that placed its first file |
| ModScan.IdentifyModsMeaning | app/src/main/kotlin/top/laoxin/modmanager/data/service/TraditionalModScanServiceImpl.kt:53-133 | one mod per group, in group order, no group twice, and the final non-empty filter of scanArchive and scanDirectoryMod drops none |
| DeleteMods.AtPathMember | app/src/main/kotlin/top/laoxin/modmanager/domain/usercase/mod/DeleteModsUseCase.kt:116 | a mod is in the group of a path exactly when it is one of the mods and lies at that path |
| DeleteMods.AtPathKey | app/src/main/kotlin/top/laoxin/modmanager/domain/usercase/mod/DeleteModsUseCase.kt:116-126 | every distinct path of the mods has a non-empty group |
| DeleteMods.ClassifyAllMember | app/src/main/kotlin/top/laoxin/modmanager/domain/usercase/mod/DeleteModsUseCase.kt:136-155 | the selected mods at a path go all to the skipped list when skipping, otherwise each to the enabled or the disabled delete list by its own state |
| DeleteMods.AddOthersMember | app/src/main/kotlin/top/laoxin/modmanager/domain/usercase/mod/DeleteModsUseCase.kt:158-170 | deleting a whole package adds exactly its unselected mods, by enabled state, and skips none |
| DeleteMods.AddOthersDistinct | app/src/main/kotlin/top/laoxin/modmanager/domain/usercase/mod/DeleteModsUseCase.kt:158-170 | the contains checks keep both delete lists free of repeats, and the lists only grow at their end |
| DeleteMods.PlanPathMember | app/src/main/kotlin/top/laoxin/modmanager/domain/usercase/mod/DeleteModsUseCase.kt:118-171 | one path of the filtering loop contributes exactly the skipped and deleted mods of that path |
| DeleteMods.PlanPathsMember | app/src/main/kotlin/top/laoxin/modmanager/domain/usercase/mod/DeleteModsUseCase.kt:118-171 | each list after the loop holds exactly the mods some distinct path contributes |
| DeleteMods.SelectedModPlanned | app/src/main/kotlin/top/laoxin/modmanager/domain/usercase/mod/DeleteModsUseCase.kt:133-155 | a selected mod is skipped exactly when its path holds more than one mod and packages are kept; otherwise it is in the delete list its enabled state picks |
| DeleteMods.OtherModPlanned | app/src/main/kotlin/top/laoxin/modmanager/domain/usercase/mod/DeleteModsUseCase.kt:157-170 | with deleteIntegratedPackage, every unselected mod of an integrated package among the selected paths is deleted with it |
| DeleteMods.PlanLists | app/src/main/kotlin/top/laoxin/modmanager/domain/usercase/mod/DeleteModsUseCase.kt:110-171 | only selected mods of kept packages are skipped, and the two delete lists hold only enabled and only disabled mods |
| DeleteMods.FailuresMember | app/src/main/kotlin/top/laoxin/modmanager/domain/usercase/mod/DeleteModsUseCase.kt:236-238 | every mod of the list is paired with the one error, and nothing else |
| DeleteMods.DeleteGroupsSkipped | app/src/main/kotlin/top/laoxin/modmanager/domain/usercase/mod/DeleteModsUseCase.kt:205-256 | the deletion loop never changes the skipped list |
| DeleteMods.DeleteAtMember | app/src/main/kotlin/top/laoxin/modmanager/domain/usercase/mod/DeleteModsUseCase.kt:221-253 | one path: a failed file delete fails all its mods with that error; after a successful one the disabled mods are deleted or all fail with the database error, and the enabled ones are reported deleted |
| DeleteMods.DeleteGroupsMember | app/src/main/kotlin/top/laoxin/modmanager/domain/usercase/mod/DeleteModsUseCase.kt:205-256 | the loop's results are exactly the union over the paths of what each path contributes |
| DeleteMods.DeletionMeaning | app/src/main/kotlin/top/laoxin/modmanager/domain/usercase/mod/DeleteModsUseCase.kt:198-256 | a disabled mod is deleted iff the file delete at its path and the database delete succeed; an enabled one iff the file delete succeeds; a mod fails exactly as its path's answers say |
| DeleteMods.EachPathOnce | app/src/main/kotlin/top/laoxin/modmanager/domain/usercase/mod/DeleteModsUseCase.kt:201-205 | the file service is called once per distinct path of the mods to delete, and at every such path |
| DeleteMods.ExecuteOutcome | app/src/main/kotlin/top/laoxin/modmanager/domain/usercase/mod/DeleteModsUseCase.kt:38-279 | an empty re-fetched list deletes nothing; a missing storage permission is the only error; a success carries the skipped mods; nothing to delete reports only the skipped ones |
| DeleteMods.DeleteModsUseCase.constructor | app/src/main/kotlin/top/laoxin/modmanager/domain/usercase/mod/DeleteModsUseCase.kt:38-39 | the cancel flag starts cleared |
| DeleteMods.DeleteModsUseCase.Cancel | app/src/main/kotlin/top/laoxin/modmanager/domain/usercase/mod/DeleteModsUseCase.kt:366-368 | sets the cancel flag |
| DeleteMods.DeleteModsUseCase.Execute | app/src/main/kotlin/top/laoxin/modmanager/domain/usercase/mod/DeleteModsUseCase.kt:38-279 | the final state is the specification's, and the flag is cleared |
| DeleteMods.DeleteModsUseCase.Filtering | app/src/main/kotlin/top/laoxin/modmanager/domain/usercase/mod/DeleteModsUseCase.kt:110-171 | the filtering loop yields the plan the specification gives |
| DeleteMods.DeleteModsUseCase.Deleting | app/src/main/kotlin/top/laoxin/modmanager/domain/usercase/mod/DeleteModsUseCase.kt:193-256 | the deletion loop yields the results the specification gives |
| DeleteMods.CheckPathsSnoc | app/src/main/kotlin/top/laoxin/modmanager/domain/usercase/mod/DeleteModsUseCase.kt:311-347 | each step of the check loop handles the next distinct path with its repository mods and its selected mods |
| DeleteMods.CheckPathSingle | app/src/main/kotlin/top/laoxin/modmanager/domain/usercase/mod/DeleteModsUseCase.kt:338-346 | a single-mod path adds its first selected mod to the enabled list exactly when some selected mod there is enabled, and otherwise to the other list |
| DeleteMods.IntegratedPathsSnoc | app/src/main/kotlin/top/laoxin/modmanager/domain/usercase/mod/DeleteModsUseCase.kt:317 | the integrated paths of a list grow by the last path exactly when it holds more than one mod |
| DeleteMods.AnyEnabled | app/src/main/kotlin/top/laoxin/modmanager/domain/usercase/mod/DeleteModsUseCase.kt:323-326 | the enabled filter is non-empty exactly when some mod is enabled |
| DeleteMods.CheckPathsPackages | app/src/main/kotlin/top/laoxin/modmanager/domain/usercase/mod/DeleteModsUseCase.kt:311-347 | the check lists one package per integrated path, in path order, and keeps the selected mods |
| DeleteMods.CheckPathsDescribed | app/src/main/kotlin/top/laoxin/modmanager/domain/usercase/mod/DeleteModsUseCase.kt:317-337 | each package record describes the mods at its own path |
| DeleteMods.CheckPathsSingles | app/src/main/kotlin/top/laoxin/modmanager/domain/usercase/mod/DeleteModsUseCase.kt:338-346 | the single-mod lists hold exactly the first selected mod of each single-mod path, split by whether some selected mod there is enabled |
| DeleteMods.SomePathSnoc | app/src/main/kotlin/top/laoxin/modmanager/domain/usercase/mod/DeleteModsUseCase.kt:311 | a path of the extended list is one of the earlier paths or the last |
| DeleteMods.CheckPathsFlag | app/src/main/kotlin/top/laoxin/modmanager/domain/usercase/mod/DeleteModsUseCase.kt:322-346 | hasEnabledMods is set exactly when some path has an enabled mod as the check counts it |
| DeleteMods.OtherModsMeaning | app/src/main/kotlin/top/laoxin/modmanager/domain/usercase/mod/DeleteModsUseCase.kt:319-320 | the other mods of a package are its mods whose id no selected mod carries |
| DeleteMods.PackageInfoMeaning | app/src/main/kotlin/top/laoxin/modmanager/domain/usercase/mod/DeleteModsUseCase.kt:328-337 | a package record names the file by its last path segment (`getFileName` is `File(path).name`, FileServiceImpl.kt:416-418), counts all its mods, and lists exactly its enabled ones |
| DeleteMods.PackageEnabledMember | app/src/main/kotlin/top/laoxin/modmanager/domain/usercase/mod/DeleteModsUseCase.kt:429 | a mod is among the packages' enabled mods exactly when some package lists it |
| DeleteMods.AllEnabledModsMeaning | app/src/main/kotlin/top/laoxin/modmanager/domain/usercase/mod/DeleteModsUseCase.kt:428-429 | allEnabledMods is the packages' enabled mods, one per id and each id present, followed by the single enabled mods |
| DeleteMods.PackageNameMeaning | app/src/main/kotlin/top/laoxin/modmanager/domain/usercase/mod/DeleteModsUseCase.kt:441-443 | the package name holds no '/'; it is the last path segment when that has no '.', otherwise the segment minus a '.'-free extension |
| DeleteMods.DeleteModsUseCase.CheckBeforeDelete | app/src/main/kotlin/top/laoxin/modmanager/domain/usercase/mod/DeleteModsUseCase.kt:286-363 | the result is the specification's |
| FlashMods.DelRepeatModsByPathAndName | app/src/main/kotlin/top/laoxin/modmanager/domain/usercase/mod/FlashModsUserCase.kt:206-228 | the mods deleted are exactly the mods not kept when grouping by path and name |
| FlashMods.DelDuplicateModsByPathAndVirtualPathsAndModType | app/src/main/kotlin/top/laoxin/modmanager/domain/usercase/mod/FlashModsUserCase.kt:230-263 | the mods deleted are exactly the mods not kept when grouping by path, virtual path (empty counting as null) and mod type |
| FlashMods.ChosenIsLatest | app/src/main/kotlin/top/laoxin/modmanager/domain/usercase/mod/FlashModsUserCase.kt:213-222 | every non-empty group keeps one of its mods: enabled and latest among the enabled ones when it has any, otherwise the latest |
| FlashMods.GroupHasKey | app/src/main/kotlin/top/laoxin/modmanager/domain/usercase/mod/FlashModsUserCase.kt:209 | a grouping key's group is non-empty and all of its mods carry that key |
| FlashMods.KeptKeys | app/src/main/kotlin/top/laoxin/modmanager/domain/usercase/mod/FlashModsUserCase.kt:213-223 | the kept mods carry the given keys, one per key, in order |
| FlashMods.OnePerGroup | app/src/main/kotlin/top/laoxin/modmanager/domain/usercase/mod/FlashModsUserCase.kt:209-226 | exactly one mod is kept per group, in order of the groups' first occurrence, and it is that group's choice |
| FlashMods.CheckDelMods | app/src/main/kotlin/top/laoxin/modmanager/domain/usercase/mod/FlashModsUserCase.kt:431-449 | the loop collects the deleted mods in order, and the enabled ones among them |
| FlashMods.CheckUpdateMods | app/src/main/kotlin/top/laoxin/modmanager/domain/usercase/mod/FlashModsUserCase.kt:452-467 | the loop collects the updated copies in order |
| FlashMods.GetNewMods | app/src/main/kotlin/top/laoxin/modmanager/domain/usercase/mod/FlashModsUserCase.kt:470-479 | the loop collects the new scanned mods in order |
| FlashMods.ReportsMeaning | app/src/main/kotlin/top/laoxin/modmanager/domain/usercase/mod/FlashModsUserCase.kt:431-479 | the deleted mods are the stored mods no scanned mod matches, the deleted-and-enabled ones those enabled among them, the new mods the scanned mods no stored mod matches |
| FlashMods.ReportsKeepOrder | app/src/main/kotlin/top/laoxin/modmanager/domain/usercase/mod/FlashModsUserCase.kt:438-476 | each report is computed piece by piece and keeps its source list's order |
| FlashMods.ReportsAgree | app/src/main/kotlin/top/laoxin/modmanager/domain/usercase/mod/FlashModsUserCase.kt:431-479 | a stored mod with an update is never reported deleted, and no new mod shares path and name with a deleted one |
| FlashMods.StaleRecordsAsWrittenEmpty | app/src/main/kotlin/top/laoxin/modmanager/domain/usercase/mod/FlashModsUserCase.kt:113-127 | as written, the clean-up filters the already reduced list, so over one view of the files it deletes no record; only a file that changes between the two passes could have its record deleted |
| FlashMods.StaleRecordsExample | app/src/main/kotlin/top/laoxin/modmanager/domain/usercase/mod/FlashModsUserCase.kt:113-127 | a record whose file is gone is kept as written and deleted by the intended clean-up |
| FlashMods.RecordsPartition | app/src/main/kotlin/top/laoxin/modmanager/domain/usercase/mod/FlashModsUserCase.kt:113-127 | with the intended clean-up every record is either kept or deleted, never both, and the two counts add up |
| FlashMods.PartitionSizes | app/src/main/kotlin/top/laoxin/modmanager/domain/usercase/mod/FlashModsUserCase.kt:113-123 | the kept and the stale records together number the records |
| GameConfig.ValidateFirstFailure | app/src/main/kotlin/top/laoxin/modmanager/domain/usercase/gameinfo/CheckGameConfigUserCase.kt:14-66 | a validation fails exactly when one of the checks fails, and then reports the earliest failing check in the order of the source |
| GameConfig.ValidatedCopy | app/src/main/kotlin/top/laoxin/modmanager/domain/usercase/gameinfo/CheckGameConfigUserCase.kt:30-58 | a validated copy has the data directory of its package name, the game directories under the root in the same number and order, as many as the content kinds, the anti-harmony file under the root when set, and nothing else changed |
| GameConfig.GamePathOnlyChecked | app/src/main/kotlin/top/laoxin/modmanager/domain/usercase/gameinfo/CheckGameConfigUserCase.kt:30-36 | the configured gamePath matters only for being empty |
| GameConfig.GameFileDirNoDoubleSlash | app/src/main/kotlin/top/laoxin/modmanager/domain/usercase/gameinfo/CheckGameConfigUserCase.kt:54-56 | a game directory holds no "//" unless the joined path had three slashes in a row |
| GameConfig.ChecksAgree | app/src/main/kotlin/top/laoxin/modmanager/data/repository/GameInfoRepositoryImpl.kt:195-226 | the repository's check and invoke give the same result on every configuration except those whose package name invoke's test rejects; the repository's check never reports an invalid package name |
| GameConfig.RegexNeedsNewline | app/src/main/kotlin/top/laoxin/modmanager/domain/usercase/gameinfo/CheckGameConfigUserCase.kt:24-27 | the regex as written never matches a name without a newline, so it rejects no ordinary name |
| GameConfig.RegexAsWrittenExample | app/src/main/kotlin/top/laoxin/modmanager/domain/usercase/gameinfo/CheckGameConfigUserCase.kt:24-27 | as written, "com.example" followed by a newline is rejected and "not a package" is let through |
| GameConfig.PackageNamePatternExample | app/src/main/kotlin/top/laoxin/modmanager/domain/usercase/gameinfo/CheckGameConfigUserCase.kt:24-27 | the intended test lets "com.example" through and rejects "not a package" |
| GameInfoRepo.DefaultKeysDistinct | app/src/main/kotlin/top/laoxin/modmanager/constant/GameInfoConstant.kt:9-82 | the three built-in entries carry three different package names |
| GameInfoRepo.CombinedShape | app/src/main/kotlin/top/laoxin/modmanager/data/repository/GameInfoRepositoryImpl.kt:48-84 | the published list starts with the three built-in entries unchanged and carries each package name once |
| GameInfoRepo.CombinedCustom | app/src/main/kotlin/top/laoxin/modmanager/data/repository/GameInfoRepositoryImpl.kt:62-84 | every entry after the built-in ones is a validated custom configuration whose package name no built-in entry has, and every valid configuration's package name is listed, so an earlier entry wins |
| GameInfoRepo.DroppedFile | app/src/main/kotlin/top/laoxin/modmanager/data/repository/GameInfoRepositoryImpl.kt:63-81 | a file that is not ".json", does not parse or fails the check is dropped on its own without changing the other entries |
| GameInfoRepo.ReloadFailure | app/src/main/kotlin/top/laoxin/modmanager/data/repository/GameInfoRepositoryImpl.kt:85-96 | a failed reload never empties a published list, and publishes the three defaults when nothing was published yet |
| GameInfoRepo.EnrichMeaning | app/src/main/kotlin/top/laoxin/modmanager/data/repository/GameInfoRepositoryImpl.kt:99-122 | an empty package name returns the input; an app that is not installed gives the no-game entry; an installed one gets its mods directory under modPath, loses the game directories mentioning "null" and the empty content kinds, takes the installed version when reported, and is handed to the special-game hook |
| GameInfoRepo.GameInfoRepository.constructor | app/src/main/kotlin/top/laoxin/modmanager/data/repository/GameInfoRepositoryImpl.kt:36-41 | a new repository has published nothing |
| GameInfoRepo.GameInfoRepository.ReloadGameInfo | app/src/main/kotlin/top/laoxin/modmanager/data/repository/GameInfoRepositoryImpl.kt:45-97 | the replay cache becomes what the reload specification gives: unchanged when listing fails, the merged list on success, the defaults on a failure with nothing published |
| FileTools.SinglePathMeaning | app/src/main/kotlin/top/laoxin/modmanager/data/service/filetools/FileToolsManager.kt:22-31 | one path: no back end exactly for "no access", and the standard, document and Shizuku access types each get their own back end |
| FileTools.ByPathsPriority | app/src/main/kotlin/top/laoxin/modmanager/data/service/filetools/FileToolsManager.kt:40-64 | two paths: no back end exactly when either side has no access, otherwise the back end of the side with the higher priority (Shizuku over documents over plain files) |
| FileTools.ByPathsSymmetric | app/src/main/kotlin/top/laoxin/modmanager/data/service/filetools/FileToolsManager.kt:40-64 | swapping source and destination never changes the back end |
| FileTools.ByPathsSame | app/src/main/kotlin/top/laoxin/modmanager/data/service/filetools/FileToolsManager.kt:22-64 | a copy within one path uses that path's own back end |
| ModList.UiListsMeaning | app/src/main/kotlin/top/laoxin/modmanager/ui/viewmodel/ModernModListViewModel.kt:49-68 | the shown list is every mod once, newest first; the enabled and disabled lists hold exactly the enabled and the disabled mods and together make up the mods; the combined state is not loading |
| ModList.PlusMinusMeaning | app/src/main/kotlin/top/laoxin/modmanager/ui/viewmodel/ModernModListViewModel.kt:84-94 | adding and removing an id keep a selection free of repeats and change only that id |
| ModList.ToggleTwice | app/src/main/kotlin/top/laoxin/modmanager/ui/viewmodel/ModernModListViewModel.kt:89-97 | a multi-select click toggles exactly the clicked id; a second click restores the selection, the very same sequence when the id was not selected |
| ModList.ScrollSaveThenGet | app/src/main/kotlin/top/laoxin/modmanager/ui/viewmodel/ModernModListViewModel.kt:166-174 | a saved position is what the key returns afterwards, other keys are unaffected, and an unknown key gives (0, 0) |
| ModList.ModListViewModel.constructor | app/src/main/kotlin/top/laoxin/modmanager/ui/viewmodel/ModernModListViewModel.kt:42 | the view model starts outside multi-select with nothing selected, the switch off, the "all" filter, no events and no saved positions |
| ModList.ModListViewModel.SetFilter | app/src/main/kotlin/top/laoxin/modmanager/ui/viewmodel/ModernModListViewModel.kt:76-78 | only the filter changes |
| ModList.ModListViewModel.ModLongClick | app/src/main/kotlin/top/laoxin/modmanager/ui/viewmodel/ModernModListViewModel.kt:81-86 | outside multi-select it turns the mode on with the mod's id added; inside it changes nothing |
| ModList.ModListViewModel.ModMultiSelectClick | app/src/main/kotlin/top/laoxin/modmanager/ui/viewmodel/ModernModListViewModel.kt:89-97 | the mod's id is toggled in the selection and nothing else changes |
| ModList.ModListViewModel.ExitSelect | app/src/main/kotlin/top/laoxin/modmanager/ui/viewmodel/ModernModListViewModel.kt:100-103 | leaves multi-select with an empty selection |
| ModList.ModListViewModel.AllSelect | app/src/main/kotlin/top/laoxin/modmanager/ui/viewmodel/ModernModListViewModel.kt:106-109 | the selection becomes exactly the ids of the given mods, each once |
| ModList.ModListViewModel.Deselect | app/src/main/kotlin/top/laoxin/modmanager/ui/viewmodel/ModernModListViewModel.kt:112-114 | empties the selection and keeps the mode |
| ModList.ModListViewModel.SetModSwitchEnable | app/src/main/kotlin/top/laoxin/modmanager/ui/viewmodel/ModernModListViewModel.kt:117-119 | only the switch state changes |
| ModList.ModListViewModel.SelectableModsForSwitch | app/src/main/kotlin/top/laoxin/modmanager/ui/viewmodel/ModernModListViewModel.kt:122-131 | one entry per selected id, in order: a mod of the shown list with that id in the opposite of the target state, or null exactly when there is none |
| ModList.ModListViewModel.RemoveModSelection | app/src/main/kotlin/top/laoxin/modmanager/ui/viewmodel/ModernModListViewModel.kt:133-135 | only that id leaves the selection |
| ModList.ModListViewModel.OnBackClick | app/src/main/kotlin/top/laoxin/modmanager/ui/viewmodel/ModernModListViewModel.kt:144-153 | in multi-select it only exits the mode; otherwise it sends one NavigateBack when not at the root and does nothing at the root |
| ModList.ModListViewModel.OnNavigateToBrowser | app/src/main/kotlin/top/laoxin/modmanager/ui/viewmodel/ModernModListViewModel.kt:155-158 | sends one NavigateToBrowser event with the path |
| ModList.ModListViewModel.OnNavigateToList | app/src/main/kotlin/top/laoxin/modmanager/ui/viewmodel/ModernModListViewModel.kt:161-163 | sends one NavigateToList event |
| ModList.ModListViewModel.SaveScrollState | app/src/main/kotlin/top/laoxin/modmanager/ui/viewmodel/ModernModListViewModel.kt:168-170 | stores the position under the key and changes nothing else |
| ModList.ModListViewModel.GetScrollState | app/src/main/kotlin/top/laoxin/modmanager/ui/viewmodel/ModernModListViewModel.kt:172-174 | the last position saved for the key, or (0, 0) |
| ModBrowser.CountFilterByKey | app/src/main/kotlin/top/laoxin/modmanager/ui/viewmodel/ModernModBrowserViewModel.kt:126-129 | a filter that only looks at the key keeps every element of an accepted key and none of the others |
| ModBrowser.FilterOnlyUniqueMeaning | app/src/main/kotlin/top/laoxin/modmanager/ui/viewmodel/ModernModBrowserViewModel.kt:126-129 | an element is kept exactly when its key occurs once, and then it is the only kept element with that key; keys occurring more than once vanish altogether |
| ModBrowser.PathFiltersMeaning | app/src/main/kotlin/top/laoxin/modmanager/ui/viewmodel/ModernModBrowserViewModel.kt:92-109 | the strict filters select by equality of path or virtual path, the others by containing "path/"; a mod strictly at the path is never in the non-strict result, and one below "path/" always is |
| ModBrowser.CurrentModsMeaning | app/src/main/kotlin/top/laoxin/modmanager/ui/viewmodel/ModernModBrowserViewModel.kt:64-75 | the mods whose parent directory is the browsed path and whose path no other such mod shares, or, only when there are none, the mods whose virtual path's parent is the browsed path |
| ModBrowser.TrailingSlashIgnored | app/src/main/kotlin/top/laoxin/modmanager/ui/viewmodel/ModernModBrowserViewModel.kt:68-72 | a trailing slash on the browsed path makes no difference |
| ModBrowser.ToggleDisplayModeMeaning | app/src/main/kotlin/top/laoxin/modmanager/ui/viewmodel/ModernModBrowserViewModel.kt:78-84 | the toggle always saves 0 or 1, turns the grid view on exactly when it was off, and undoes itself |
| ModBrowser.ModBrowserViewModel.constructor | app/src/main/kotlin/top/laoxin/modmanager/ui/viewmodel/ModernModBrowserViewModel.kt:37 | no browsed path, no mods shown, no saved positions, and the given saved display mode |
| ModBrowser.ModBrowserViewModel.UiState | app/src/main/kotlin/top/laoxin/modmanager/ui/viewmodel/ModernModBrowserViewModel.kt:40-57 | the grid view is on exactly for display mode 1, and the browsed path defaults to the game's full mod path |
| ModBrowser.ModBrowserViewModel.SetCurrentBrowsingPath | app/src/main/kotlin/top/laoxin/modmanager/ui/viewmodel/ModernModBrowserViewModel.kt:64-75 | the browsed path is set and the shown mods are those of that directory, nothing else changing |
| ModBrowser.ModBrowserViewModel.ToggleDisplayMode | app/src/main/kotlin/top/laoxin/modmanager/ui/viewmodel/ModernModBrowserViewModel.kt:78-84 | the saved display mode is toggled and nothing else changes |
| ModBrowser.ModBrowserViewModel.SaveScrollState | app/src/main/kotlin/top/laoxin/modmanager/ui/viewmodel/ModernModBrowserViewModel.kt:113-115 | stores the position under the path and changes nothing else |
| ModBrowser.ModBrowserViewModel.GetScrollState | app/src/main/kotlin/top/laoxin/modmanager/ui/viewmodel/ModernModBrowserViewModel.kt:117-119 | the last position saved for the path, or (0, 0) |
| ModBrowser.ModBrowserViewModel.SetCurrentMods | app/src/main/kotlin/top/laoxin/modmanager/ui/viewmodel/ModernModBrowserViewModel.kt:121-124 | only the shown mods change |
| Backup.Copy | app/src/main/kotlin/top/laoxin/modmanager/data/service/BackupServiceImpl.kt:135 | a successful copy gives the destination the source's content and changes no other file |
| Backup.JobForPlacement | app/src/main/kotlin/top/laoxin/modmanager/data/service/BackupServiceImpl.kt:51-54 | the service's job puts each backup in getBackupDir's directory under the game file's own name, inside the game's backup directory |
| Backup.BackupDirMeaning | app/src/main/kotlin/top/laoxin/modmanager/data/service/BackupServiceImpl.kt:244-260 | every backup directory lies in the game's backup directory, and a file outside any data directory of the game, or directly in it, is backed up at its top |
| Backup.BackupStoppedStays | app/src/main/kotlin/top/laoxin/modmanager/data/service/BackupServiceImpl.kt:64-72 | once a failure stops the flow, the later game files change nothing |
| Backup.BackupGameFiles | app/src/main/kotlin/top/laoxin/modmanager/data/service/BackupServiceImpl.kt:35-160 | the loop emits the events and leaves the storage as the backup specification gives them |
| Backup.BackupStepShape | app/src/main/kotlin/top/laoxin/modmanager/data/service/BackupServiceImpl.kt:51-157 | each game file adds its progress event and then either one record or one final failure |
| Backup.BackupNoSuccess | app/src/main/kotlin/top/laoxin/modmanager/data/service/BackupServiceImpl.kt:51-157 | the loop itself emits no success |
| Backup.BackupFailedLast | app/src/main/kotlin/top/laoxin/modmanager/data/service/BackupServiceImpl.kt:64-140 | a stopped run ends with its one failure, and an unstopped run has none |
| Backup.BackupRecords | app/src/main/kotlin/top/laoxin/modmanager/data/service/BackupServiceImpl.kt:98-156 | an unstopped run made one record per game file, in order, each naming its game file, its mod and its backup |
| Backup.BackupOutcome | app/src/main/kotlin/top/laoxin/modmanager/data/service/BackupServiceImpl.kt:35-160 | the flow ends with exactly one outcome: a success with one record per game file, or a failure with no record list; no game files give a success with an empty list |
| Backup.SmartBackup | app/src/main/kotlin/top/laoxin/modmanager/data/service/BackupServiceImpl.kt:59-156 | a missing game file stops the flow; a replaced file still in its replaced state whose backup exists is not copied and its record takes the backup's digest; any other file is copied to its backup and its record takes its own digest |
| Backup.RestoreStoppedStays | app/src/main/kotlin/top/laoxin/modmanager/data/service/BackupServiceImpl.kt:218-226 | once a copy failure stops the restore, the later backups change nothing |
| Backup.RestoreBackups | app/src/main/kotlin/top/laoxin/modmanager/data/service/BackupServiceImpl.kt:163-240 | the loop emits the events and leaves the storage as the restore specification gives them |
| Backup.SmartRestore | app/src/main/kotlin/top/laoxin/modmanager/data/service/BackupServiceImpl.kt:185-236 | a replaced game file changed since, or a missing backup, is left alone yet counts as restored; otherwise the backup is copied back, or the copy failure stops the flow |
| Backup.RestoreAllCounted | app/src/main/kotlin/top/laoxin/modmanager/data/service/BackupServiceImpl.kt:178-237 | an unstopped restore counts every backup it went through as restored, and a stopped one ends with its failure |
| Backup.RestoreOutcome | app/src/main/kotlin/top/laoxin/modmanager/data/service/BackupServiceImpl.kt:163-240 | a successful restore reports every backup it was given, in order; a failed one reports no success |
| Backup.BackupRestoreRoundTrip | app/src/main/kotlin/top/laoxin/modmanager/data/service/BackupServiceImpl.kt:35-240 | backing a file up, overwriting it and restoring the record puts the original content back, and the record carries the original digest |
| ProjectSnow.LeadingDigits | app/src/main/kotlin/top/laoxin/modmanager/data/service/specialgame/ProjectSnowHandler.kt:318 | the longest run of digits the text starts with: a digit-only prefix not followed by a digit |
| ProjectSnow.LeadingDigitsPrefix | app/src/main/kotlin/top/laoxin/modmanager/data/service/specialgame/ProjectSnowHandler.kt:318 | a digit-only prefix not followed by a digit is the leading run |
| ProjectSnow.VersionPartsOfShaped | app/src/main/kotlin/top/laoxin/modmanager/data/service/specialgame/ProjectSnowHandler.kt:318-320 | a version starting with "a.b.c" (digit runs, no digit after c) yields those numbers |
| ProjectSnow.MinorPartsOfShaped | app/src/main/kotlin/top/laoxin/modmanager/data/service/specialgame/ProjectSnowHandler.kt:318-320 | after the first number and its '.', the rest of the match yields the second and third numbers |
| ProjectSnow.VersionPartsIff | app/src/main/kotlin/top/laoxin/modmanager/data/service/specialgame/ProjectSnowHandler.kt:318-320 | the numbers found are exactly those the version starts with in the shape `^(\d+\.\d+\.\d+)` |
| ProjectSnow.VersionPartsDigits | app/src/main/kotlin/top/laoxin/modmanager/data/service/specialgame/ProjectSnowHandler.kt:318-320 | the numbers found are non-empty runs of digits |
| ProjectSnow.NoDotInDigits | app/src/main/kotlin/top/laoxin/modmanager/data/service/specialgame/ProjectSnowHandler.kt:318-324 | a run of digits holds neither '.' nor '/' |
| ProjectSnow.JoinThree | app/src/main/kotlin/top/laoxin/modmanager/data/service/specialgame/ProjectSnowHandler.kt:324 | joining three pieces on '.' puts a '.' between them |
| ProjectSnow.ThirdPieceZeroed | app/src/main/kotlin/top/laoxin/modmanager/data/service/specialgame/ProjectSnowHandler.kt:321-324 | splitting "a.b.c" on '.', replacing the third piece by "0" and joining gives "a.b.0" |
| ProjectSnow.GameFileDirMeaning | app/src/main/kotlin/top/laoxin/modmanager/data/service/specialgame/ProjectSnowHandler.kt:316-325 | getGameFileDir maps a leading "x.y.z" to "x.y.0", gives "" for any other version, and never yields a '/' |
| ProjectSnow.CleanTail | app/src/main/kotlin/top/laoxin/modmanager/data/service/specialgame/ProjectSnowHandler.kt:300-301 | a path free of "//" and not ending in '/' stays so without its first character |
| ProjectSnow.CollapseStep | app/src/main/kotlin/top/laoxin/modmanager/data/service/specialgame/ProjectSnowHandler.kt:300-301 | the one-pass "//" replacement copies a first character that does not start "//" |
| ProjectSnow.CollapseAppend | app/src/main/kotlin/top/laoxin/modmanager/data/service/specialgame/ProjectSnowHandler.kt:300-301 | the one-pass replacement leaves a clean prefix alone |
| ProjectSnow.WithEmptyDir | app/src/main/kotlin/top/laoxin/modmanager/data/service/specialgame/ProjectSnowHandler.kt:300-301 | with no version directory a clean path gains a single '/' |
| ProjectSnow.WithDir | app/src/main/kotlin/top/laoxin/modmanager/data/service/specialgame/ProjectSnowHandler.kt:300-301 | with a version directory free of '/' a clean path gains exactly "/dir/" |
| ProjectSnow.UpdateGameInfoShape | app/src/main/kotlin/top/laoxin/modmanager/data/service/specialgame/ProjectSnowHandler.kt:296-304 | updateGameInfo changes only the game paths and keeps their number |
| ProjectSnow.UpdatedGamePath | app/src/main/kotlin/top/laoxin/modmanager/data/service/specialgame/ProjectSnowHandler.kt:296-304 | each clean game path gets "/dir/" appended, or a single '/' when the version gives no directory |
| ProjectSnow.UpdatedGamePathSlashes | app/src/main/kotlin/top/laoxin/modmanager/data/service/specialgame/ProjectSnowHandler.kt:296-304 | a "//" survives in an updated game path only where the joined path had "///" |
| ProjectSnow.ModFileSupportedMeaning | app/src/main/kotlin/top/laoxin/modmanager/data/service/specialgame/ProjectSnowHandler.kt:259-261 | every name ending in ".pak" is supported, the test is case-sensitive, and a supported name is its stem followed by ".pak" |
| ProjectSnow.EnableFilesMeaning | app/src/main/kotlin/top/laoxin/modmanager/data/service/specialgame/ProjectSnowHandler.kt:84-119 | the enable loop keeps the old entries and appends one entry per mod file, none de-duplicated, until the first file whose digest or size cannot be had; it runs to the end exactly when every file can be read |
| ProjectSnow.EnableSpecIs | app/src/main/kotlin/top/laoxin/modmanager/data/service/specialgame/ProjectSnowHandler.kt:75-83 | a missing manifest starts the loop from a newly created empty file and an empty list, a stored one from its own entries |
| ProjectSnow.EnableMeaning | app/src/main/kotlin/top/laoxin/modmanager/data/service/specialgame/ProjectSnowHandler.kt:63-126 | enabling over a stored manifest succeeds exactly when every mod file can be read, and then the manifest holds the old entries followed by one new entry per mod file |
| ProjectSnow.EnableTwiceDuplicates | app/src/main/kotlin/top/laoxin/modmanager/data/service/specialgame/ProjectSnowHandler.kt:84-106 | enabling the same mod files twice lists each of their entries twice |
| ProjectSnow.EnableBreaksFreshManifest | app/src/main/kotlin/top/laoxin/modmanager/data/service/specialgame/ProjectSnowHandler.kt:76-83 | a first enable whose first mod file cannot be read leaves the created manifest empty, and every later enable of the package then fails without a change |
| ProjectSnow.DisableRunMeaning | app/src/main/kotlin/top/laoxin/modmanager/data/service/specialgame/ProjectSnowHandler.kt:141-149 | the disable loop throws exactly when some entry is matched by two or more mod file names, and otherwise keeps, in order, the entries no mod file name matches |
| ProjectSnow.DisableKeeps | app/src/main/kotlin/top/laoxin/modmanager/data/service/specialgame/ProjectSnowHandler.kt:141-149 | after a successful disable an entry stays exactly when its name equals no mod file's name |
| ProjectSnow.InjectMeaning | app/src/main/kotlin/top/laoxin/modmanager/data/service/specialgame/ProjectSnowHandler.kt:206-210 | the injected list holds exactly the game's and the mod entries, and the game's entries stay last and in their order |
| ProjectSnow.InjectDistinct | app/src/main/kotlin/top/laoxin/modmanager/data/service/specialgame/ProjectSnowHandler.kt:206-210 | the injection adds no duplicates |
| ProjectSnow.ConsDistinct | app/src/main/kotlin/top/laoxin/modmanager/data/service/specialgame/ProjectSnowHandler.kt:207-208 | putting an element not yet listed in front keeps a list free of repeats |
| ProjectSnow.InjectReversed | app/src/main/kotlin/top/laoxin/modmanager/data/service/specialgame/ProjectSnowHandler.kt:206-210 | distinct mod entries the game does not list yet end up in front in reverse order |
| ProjectSnow.GameStartDenied | app/src/main/kotlin/top/laoxin/modmanager/data/service/specialgame/ProjectSnowHandler.kt:171-174 | without access nothing is read, copied or written, and the result is the permission error |
| ProjectSnow.GameStartInjects | app/src/main/kotlin/top/laoxin/modmanager/data/service/specialgame/ProjectSnowHandler.kt:176-225 | with both manifests readable and mod entries to add, the game's manifest becomes the copied one with every mod entry listed, the copied entries still last, and its other fields kept |
| ProjectSnow.GameStartOutcome | app/src/main/kotlin/top/laoxin/modmanager/data/service/specialgame/ProjectSnowHandler.kt:176-229 | with access, the start succeeds exactly when the mod manifest parses to a manifest and the copy either does too or is empty with no mod entries to add; any failure is `Unknown`; only the copy and the game's manifest can change, and the game's manifest only on a success with mod entries |
| ProjectSnow.GameStartNothingToInject | app/src/main/kotlin/top/laoxin/modmanager/data/service/specialgame/ProjectSnowHandler.kt:193-204 | a mod manifest with no entries and an empty game manifest: the empty copy parses to `null` without throwing, the empty-list test returns success first, and only the copy is written |
| ProjectSnow.RemoveMatches | app/src/main/kotlin/top/laoxin/modmanager/data/service/specialgame/ProjectSnowHandler.kt:143-148 | one entry's pass over the mod files throws exactly when two or more of them carry its name, and otherwise removes it exactly when one does |
| ProjectSnow.DisableLoop | app/src/main/kotlin/top/laoxin/modmanager/data/service/specialgame/ProjectSnowHandler.kt:141-149 | the iterator loop yields the disable run over the mod files' names |
| ProjectSnow.InjectLoop | app/src/main/kotlin/top/laoxin/modmanager/data/service/specialgame/ProjectSnowHandler.kt:206-210 | the injection loop yields the injected list |
| ProjectSnow.ProjectSnowHandler.constructor | app/src/main/kotlin/top/laoxin/modmanager/data/service/specialgame/ProjectSnowHandler.kt:63-67 | the handler starts with the given roots and manifest files and no manifest paths set |
| ProjectSnow.ProjectSnowHandler.HandleModEnable | app/src/main/kotlin/top/laoxin/modmanager/data/service/specialgame/ProjectSnowHandler.kt:63-126 | sets the mod manifest path and leaves exactly that manifest file as the enable specification says, returning its outcome |
| ProjectSnow.ProjectSnowHandler.AppendPaks | app/src/main/kotlin/top/laoxin/modmanager/data/service/specialgame/ProjectSnowHandler.kt:84-121 | the loop writes the manifest after each appended entry and stops at the first unreadable mod file |
| ProjectSnow.ProjectSnowHandler.HandleModDisable | app/src/main/kotlin/top/laoxin/modmanager/data/service/specialgame/ProjectSnowHandler.kt:128-157 | sets the mod manifest path and leaves the manifest files and the result as the disable specification says |
| ProjectSnow.ProjectSnowHandler.HandleGameStart | app/src/main/kotlin/top/laoxin/modmanager/data/service/specialgame/ProjectSnowHandler.kt:159-230 | sets both manifest paths and leaves the manifest files and the result as the game-start specification says, with access judged on the game's files directory |
| ProjectSnow.EnableStoppedStays | app/src/main/kotlin/top/laoxin/modmanager/data/service/specialgame/ProjectSnowHandler.kt:84-124 | once the enable loop stops it stays stopped |
| ProjectSnow.EnablePrefixStops | app/src/main/kotlin/top/laoxin/modmanager/data/service/specialgame/ProjectSnowHandler.kt:87-106 | an unreadable mod file after a run of readable ones stops the loop there |
| ProjectSnow.PrefixCount | app/src/main/kotlin/top/laoxin/modmanager/data/service/specialgame/ProjectSnowHandler.kt:141-149 | a prefix holds a name no more often than the whole list |
| ArchiveType.Head | app/src/main/kotlin/top/laoxin/modmanager/tools/ArchiveUtil.kt:836-841 | the header always has four bytes |
| ArchiveType.GetFileType | app/src/main/kotlin/top/laoxin/modmanager/tools/ArchiveUtil.kt:830-862 | the loop over the header bytes yields the file type the fold of its first four bytes names |
| ArchiveType.HeadHexFour | app/src/main/kotlin/top/laoxin/modmanager/tools/ArchiveUtil.kt:842-851 | the fold of a four-byte header shifts in each sign-extended byte in turn |
| ArchiveType.FoldLowBits | app/src/main/kotlin/top/laoxin/modmanager/tools/ArchiveUtil.kt:842-851 | four bytes below 0x80 fold to their big-endian value |
| ArchiveType.FoldLastByte | app/src/main/kotlin/top/laoxin/modmanager/tools/ArchiveUtil.kt:842-851 | the low eight bits of the fold are the last byte's |
| ArchiveType.FoldNegative | app/src/main/kotlin/top/laoxin/modmanager/tools/ArchiveUtil.kt:842-851 | a byte of 0x80 or more overwrites every higher bit of the fold with ones |
| ArchiveType.FoldHighBit | app/src/main/kotlin/top/laoxin/modmanager/tools/ArchiveUtil.kt:842-851 | a byte of 0x80 or more anywhere in the header makes the folded value negative |
| ArchiveType.ZipIff | app/src/main/kotlin/top/laoxin/modmanager/tools/ArchiveUtil.kt:852-857 | a header is taken for ZIP exactly when it is 50 4B 03 04 |
| ArchiveType.RarIff | app/src/main/kotlin/top/laoxin/modmanager/tools/ArchiveUtil.kt:852-857 | a header is taken for RAR exactly when it is 52 61 72 21 |
| ArchiveType.SevenZIff | app/src/main/kotlin/top/laoxin/modmanager/tools/ArchiveUtil.kt:852-857 | a header is taken for 7z exactly when its fourth byte is AF, whatever its first three bytes |
| ArchiveType.FileTypeMeaning | app/src/main/kotlin/top/laoxin/modmanager/tools/ArchiveUtil.kt:830-862 | ".apk" files, unreadable files and files under four bytes are of unknown type; otherwise the three cases above decide |
| ArchiveType.RouteMeaning | app/src/main/kotlin/top/laoxin/modmanager/tools/ArchiveUtil.kt:32-53 | a file is refused exactly when it is not an archive; zip4j gets exactly the ZIP files without a password, 7-Zip the 7z and RAR files and the ZIP files with one |
| ArchiveType.IsArchiveMeaning | app/src/main/kotlin/top/laoxin/modmanager/tools/ArchiveUtil.kt:783-791 | a missing file or a directory is never an archive, and a file is one exactly when its type is known |

## Left out

- The liblz4 and liblzma internals are left out. The codecs are opaque functions in `Backends`, and LZ4 and LZMA round-trip only under the assumption that the library's own pair round-trips. The `dict_size` set before `lzma_lzma_preset` is library behaviour and is not modelled.
- The sources of `Header`, `Reader`, `Writer` and `ByteArr` are not part of this model. `BundleHeader` and `Cursor` carry only the members the core uses, and their behaviour is assumed, not taken from code:
  - integers are big-endian and strings NUL-terminated, as in the UnityFS layout;
  - `Reader::Align(16)` and `Writer::Align(16)` always advance 1 to 16 bytes, so a position that is already a multiple of 16 moves on by 16. This is an assumption about those unseen functions, not a property of UnityFS: readers such as AssetStudio do not move at an aligned position. The second row of "## Findings" depends on it;
  - a fresh `new ByteArr(n)` is zero-filled. `Bundle.BlocksPayload` and `BlocksInfo.BlocksAndDirectoryInfo.Inflate` rely on it;
  - the view `ByteArr(out_buf, strm.total_out, 8)` is a valid buffer holding bytes 8 to `total_out` of `out_buf`. `Compression.StripSizeField` relies on it.
- Bundle.SavedBlocks, Bundle.SavedHeader, Bundle.BundleFile.ToBytes, Bundle.BundleFile.PrepareBlocks, Bundle.BundleFile.ResizeAndTag, Bundle.BundleFile.RechunkBlocks, Bundle.BundleFile.SetChunkSizes, Bundle.BundleFile.Assemble, Bundle.BundleFile.AssembleWith, Bundle.BundleFile.WriteSaved, Bundle.BundleFile.SizeHeader and Bundle.BundleFile.SaveSize model the corrected re-chunking and the corrected `mSize` (the corrected members of "## Findings"), not BundleFile.cpp as written. They differ from the C++ on two inputs: an LZMA payload that is an exact non-zero multiple of `UINT32_MAX` bytes, whose last chunk the C++ gives 0 bytes; and metadata placed at the end with payload padding on, where the C++ size counts the padding at the offset after the metadata rather than where the padding is written. `BundleLayout.RechunkedAsWritten` and `BundleLayout.SaveSizeAsWritten` model the C++ there.
- SaveLoad.SaveThenLoad: the save-then-load round trip holds under premises it does not prove. The compression libraries are unseen, so each block's codec and LZ4HC on the metadata must give back what they compressed (`ChunksRoundTrip`, `Compression.RoundTrips`). A 2019.4 file before version 7 whose header was not aligned must not hold only zeros after the header up to the next multiple of 16 (`ProbeClear`), or the loader takes it for aligned. The raw metadata must be under 4 GiB (`RawSize < 2^32`) and the new metadata must be well formed (`WellFormed`). The state saved must have the shape the loader gives (`LoadedShape`). The round trip starts the loader just after the header, since reading the header is `BundleHeader`'s part.
- Bundle.KeyAccepted counts the key's length in characters. The C++ `size()` counts the bytes of the key's UTF-8 form, so the two agree for ASCII keys only.
- In the C++ code, reading past the end of the input, an LZMA block shorter than its 5 property bytes, and a re-chunk count above the record array's length are undefined behaviour. The model reports each of these as an error.
- The JNI entry points and the byte-array marshalling are not modelled.
- All Android I/O is replaced by parameters:
  - files and their contents are a map, and failing copies a set;
  - MD5 digests and sizes are given values;
  - the Room DAOs and the preference store are lists and fields;
  - `FileToolsManager`'s tool objects are a value naming the tool.
- The declarations of the domain `ModBean` and `GameInfoBean` are not part of this model. `DomainMod` and `GameInfo` hold the fields the core uses.
- `FlashModsUserCase` imports the domain `ModBean` (`top.laoxin.modmanager.data.bean`), whose declaration is not part of this model. `FlashMods` assumes it has the fields of the `ModBean` record in `top.laoxin.modmanager.bean`, which the `ModBean` module models.
- `ModernModListViewModel` sends its navigation events with `trySend` on a rendezvous `Channel()`, which drops an event when no collector is waiting. The `ModList` members append every event to `events`, as if a collector were always waiting.
- Coroutines, `Flow` plumbing and the progress states are not modelled. Each use case's final state or result is modelled; intermediate progress emissions are modelled only where they are plain events in a list (`Backup`).
- `isCanceled` is modelled as a plain field that is read when a run starts. Another thread setting it during a run is not modelled. `DeleteMods.DeleteModsUseCase.Execute` therefore never reports a cancellation that happens mid-run.
- `ignoreCase` comparisons fold ASCII letters only, not full Unicode case folding.
- The floating-point progress arithmetic of `ScanAndSyncModsUseCase` is not modelled.
- `TraditionalModScanServiceImpl`: `loadGameFilesMap`, the commented-out `consolidateModGroups`, the image extraction itself and `extractReadmeContent` read files and are not modelled. The date and clock fields of a created mod and its package name are left out.
- FlashMods.StaleRecordsAsWrittenEmpty: both filters of the clean-up (FlashModsUserCase.kt:113-124) read one `FileStats` view of the files. The source asks `File(it.path)` again in the second filter, so a file that is deleted or modified between the two passes would still have its record deleted; the model does not capture that race.
- `FlashModsUserCase`: only the duplicate removal, the new/updated/deleted mod checks and the stale-record clean-up are modelled. `scanMods`, `createArchiveMods` and `readModBeans` are archive and file I/O and are not modelled.
- `GameInfoRepositoryImpl`: `downloadRemoteGameConfig` and `importCustomGameConfigs` are network and file I/O and are not modelled. The constructor does not launch `reload`; the model starts with nothing published.
- `ProjectSnowHandler`:
  - `checkBeforeGameStart` and `handleGameSelect` start services and ask for permissions, so they are not modelled;
  - `needGameService` and `needOpenVpn` are constants and are not modelled;
  - failures of `mkdirs`, `createNewFile` and the writes are not modelled;
  - the 40-second rewrite loop is modelled as a single write;
  - JSON parsing is folded into the file states: an empty file parses to `null` (`Empty`) and a file Gson cannot parse throws (`Malformed`). A manifest whose `paks` field is missing is not modelled.
- `ArchiveUtil`:
  - the zip4j and 7-Zip-JBinding extraction, the listing and the entry streams are not modelled;
  - the routing is modelled, but `listInArchiveFiles` sends every ZIP file to zip4j whatever the password, so it is not covered by `ArchiveType.Route`;
  - `isRandomCode` and `formatString` depend on charset encoders and are not modelled.
- The Compose UI, the screens and the foreground services are not modelled.

## Findings

| source | as written | input that shows it | evidently intended | confidence | as-written member | corrected member |
|---|---|---|---|---|---|---|
| app/src/main/cpp/ABRecompressor/src/BundleFile.cpp:120-126 | the LZMA re-chunking gives every chunk but the last `UINT32_MAX` bytes and the last `total % UINT32_MAX` bytes | a payload of exactly `UINT32_MAX` bytes: its one chunk is given 0 bytes | the last chunk takes whatever remains, from 1 to `UINT32_MAX` bytes | not executed | BundleLayout.RechunkedAsWrittenDropsLastChunk | BundleLayout.RechunkedCovers |
| app/src/main/cpp/ABRecompressor/src/BundleFile.cpp:143-150 | `mSize` pads the offset reached after the metadata, even when the metadata is written after the blocks | a 16-byte header, one metadata byte at the end, payload padding on, no blocks: the buffer is 32 bytes long but 33 bytes are written | the size counts the padding at the offset where it is written (lines 159-175) | not executed | BundleLayout.SaveSizeAsWrittenOverrun | Bundle.BundleFile.SaveSize |
| app/src/main/kotlin/top/laoxin/modmanager/domain/usercase/mod/FlashModsUserCase.kt:113-127 | the records to delete are picked from the list that was already reduced to the unchanged records, so none is picked unless a file changes between the two passes | the record of "/mods/a.zip" when that file no longer exists is not deleted | the records of missing or modified files are deleted | not executed | FlashMods.StaleRecordsAsWrittenEmpty | FlashMods.RecordsPartition |
| app/src/main/kotlin/top/laoxin/modmanager/domain/usercase/gameinfo/CheckGameConfigUserCase.kt:24-27 | the package-name test throws when the name matches, and the pattern ends in a literal `\n` | "com.example\n" is rejected; "not a package" is accepted | a name is rejected when it does not match a dotted package name | not executed | GameConfig.RegexAsWrittenExample | GameConfig.PackageNamePatternExample |
