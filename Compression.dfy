/**
 * The codec dispatch of the bundle recompressor: `Decompress` writes a block into a
 * caller-owned buffer, `Compress` returns a fresh buffer. The LZ4 and LZMA libraries are
 * only seen through their inputs and outputs (the `Backends` value); what is modelled here
 * is the dispatch on the codec tag, the size and status checks around each library call,
 * and the LZMA-alone header fix-ups.
 */
module Compression {
  import opened Wrappers
  import opened Bytes

  /** `CompressionType` tags. */
  const NONE: nat := 0
  const LZMA: nat := 1
  const LZ4: nat := 2
  const LZ4HC: nat := 3

  /** The level passed to `LZ4_compress_HC`. */
  const LZ4HC_LEVEL: nat := 12

  /** `LZ4_MAX_INPUT_SIZE`: inputs above it have a compression bound of 0. */
  const LZ4_MAX_INPUT_SIZE: nat := 0x7E00_0000

  /** The 5-byte LZMA properties, then the 8-byte size field of the LZMA-alone header. */
  const LZMA_PROPS_SIZE: nat := 5
  const LZMA_ALONE_HEADER_SIZE: nat := 13

  datatype CodecError =
    | SizeMismatch(expected: nat, got: nat)   // "Decompressed size does not match the expected size"
    | Lz4DecodeFailed                          // LZ4_decompress_safe returned a negative value
    | LzmaInitFailed                           // lzma_alone_decoder / lzma_alone_encoder did not return LZMA_OK
    | LzmaStreamFailed                         // lzma_code did not return LZMA_STREAM_END
    | LzmaInputTooShort                        // fewer than 5 input bytes: the C++ copies `compressedSize - 5` bytes
    | LzmaInputTooLong                         // `compressedSize + 8` wraps around 32 bits: the C++ copies past `fixedData`
    | UnknownCodec(tag: nat)                   // "Unknown compression type"

  /**
   * The codec libraries. Each LZMA function takes and returns whole LZMA-alone streams
   * (13-byte header, then the raw stream); `None` is a library error status.
   */
  datatype Backends = Backends(
    lz4Decompress: seq<byte> -> Option<seq<byte>>,
    lz4Compress: seq<byte> -> seq<byte>,
    lz4CompressHC: (seq<byte>, nat) -> seq<byte>,
    lzmaDecoderInit: bool,
    lzmaDecode: seq<byte> -> Option<seq<byte>>,
    lzmaEncoderInit: bool,
    lzmaEncode: seq<byte> -> Option<seq<byte>>)

  /** `LZ4_compressBound`. */
  function Lz4CompressBound(n: nat): nat
  {
    if n > LZ4_MAX_INPUT_SIZE then 0 else n + n / 255 + 16
  }

  /** The output capacity the LZMA encoder is given: `n + n/3 + 128`, evaluated in the 32-bit
    * `uint` arithmetic of the source before it is widened to `size_t`. */
  function LzmaOutCapacity(n: nat): (r: nat)
    ensures r < UINT32_LIMIT
  {
    (n + n / 3 + 128) % UINT32_LIMIT
  }

  /** The capacity is `n + n/3 + 128` while that fits in 32 bits; from 3221225376 input bytes
    * on it wraps around, so that a block of `UINT32_MAX` bytes gets a buffer of only
    * 1431655892 bytes, and any stream longer than that makes the encoder fail. */
  lemma LzmaOutCapacityWraps(n: nat)
    ensures n + n / 3 + 128 < UINT32_LIMIT ==> LzmaOutCapacity(n) == n + n / 3 + 128
    ensures n < UINT32_LIMIT && n + n / 3 + 128 >= UINT32_LIMIT ==> LzmaOutCapacity(n) < n
    ensures LzmaOutCapacity(UINT32_LIMIT - 1) == 1431655892
  {
  }

  /** The 8-byte little-endian size field: the size in the low 4 bytes, the upper 4 zero. */
  function SizeField(n: u32): (r: seq<byte>)
    ensures |r| == 8
  {
    EncodeLE(n, 8)
  }

  lemma SizeFieldHolds(n: u32)
    ensures DecodeLE(SizeField(n)) == n
    ensures forall i :: 4 <= i < 8 ==> SizeField(n)[i] == 0
  {
    assert Pow256(4) == UINT32_LIMIT;
    Pow256Mono(4, 8);
    DecodeEncodeLE(n, 8);
    forall i | 4 <= i < 8 ensures SizeField(n)[i] == 0 {
      EncodeLEHighZero(n, 8, 4, i);
    }
  }

  /**
   * What the LZMA decoder is fed for a block stored in a bundle: the 5 properties bytes,
   * the size field for the expected size, then the rest of the stored bytes.
   */
  function LzmaDecoderInput(stored: seq<byte>, expected: u32): (r: seq<byte>)
    requires |stored| >= LZMA_PROPS_SIZE
    ensures |r| == |stored| + 8
  {
    stored[..LZMA_PROPS_SIZE] + SizeField(expected) + stored[LZMA_PROPS_SIZE..]
  }

  /** What a bundle stores for an LZMA-alone stream: the header without its size field. */
  function LzmaStoredForm(alone: seq<byte>): (r: seq<byte>)
    requires |alone| >= LZMA_ALONE_HEADER_SIZE
    ensures |r| == |alone| - 8
  {
    alone[..LZMA_PROPS_SIZE] + alone[LZMA_ALONE_HEADER_SIZE..]
  }

  /** Re-inserting the size field and removing it again gives back the stored bytes. */
  lemma StoredFormOfDecoderInput(stored: seq<byte>, expected: u32)
    requires |stored| >= LZMA_PROPS_SIZE
    ensures LzmaStoredForm(LzmaDecoderInput(stored, expected)) == stored
  {
    var d := LzmaDecoderInput(stored, expected);
    assert d[..LZMA_PROPS_SIZE] == stored[..LZMA_PROPS_SIZE];
    assert d[LZMA_ALONE_HEADER_SIZE..] == stored[LZMA_PROPS_SIZE..];
  }

  /**
   * Removing the size field of an encoder stream and inserting the field for `n` gives back
   * the stream with only its size field replaced.
   */
  lemma DecoderInputOfStoredForm(alone: seq<byte>, n: u32)
    requires |alone| >= LZMA_ALONE_HEADER_SIZE
    ensures LzmaDecoderInput(LzmaStoredForm(alone), n)
         == alone[..LZMA_PROPS_SIZE] + SizeField(n) + alone[LZMA_ALONE_HEADER_SIZE..]
  {
    var s := LzmaStoredForm(alone);
    assert s[..LZMA_PROPS_SIZE] == alone[..LZMA_PROPS_SIZE];
    assert s[LZMA_PROPS_SIZE..] == alone[LZMA_ALONE_HEADER_SIZE..];
  }

  /** The bytes `Decompress` writes for one block, or its error. */
  function Decoded(b: Backends, codec: nat, stored: seq<byte>, expected: u32): (r: Result<seq<byte>, CodecError>)
    ensures r.Ok? ==> |r.value| <= expected
  {
    if codec == NONE then
      if |stored| != expected then Err(SizeMismatch(expected, |stored|)) else Ok(stored)
    else if codec == LZMA then
      if !b.lzmaDecoderInit then Err(LzmaInitFailed)
      else if |stored| < LZMA_PROPS_SIZE then Err(LzmaInputTooShort)
      else if |stored| + 8 >= UINT32_LIMIT then Err(LzmaInputTooLong)
      else
        match b.lzmaDecode(LzmaDecoderInput(stored, expected))
        case Some(out) => if |out| <= expected then Ok(out) else Err(LzmaStreamFailed)
        case None => Err(LzmaStreamFailed)
    else if codec == LZ4 || codec == LZ4HC then
      match b.lz4Decompress(stored)
      case Some(out) =>
        if |out| > expected then Err(Lz4DecodeFailed)
        else if |out| != expected then Err(SizeMismatch(expected, |out|))
        else Ok(out)
      case None => Err(Lz4DecodeFailed)
    else Err(UnknownCodec(codec))
  }

  /** The size checks each codec enforces on a successful decode. */
  lemma DecodedSizes(b: Backends, codec: nat, stored: seq<byte>, expected: u32)
    ensures Decoded(b, codec, stored, expected).Ok? ==> codec <= LZ4HC
    ensures codec == NONE ==> (Decoded(b, codec, stored, expected).Ok? <==> |stored| == expected)
    ensures codec == NONE && |stored| == expected ==> Decoded(b, codec, stored, expected) == Ok(stored)
    ensures (codec == LZ4 || codec == LZ4HC) && Decoded(b, codec, stored, expected).Ok?
            ==> |Decoded(b, codec, stored, expected).value| == expected
    ensures codec == LZMA && Decoded(b, codec, stored, expected).Ok?
            ==> (LZMA_PROPS_SIZE <= |stored| < UINT32_LIMIT - 8
                 && |Decoded(b, codec, stored, expected).value| <= expected
                 && b.lzmaDecode(LzmaDecoderInput(stored, expected)) == Some(Decoded(b, codec, stored, expected).value))
  {
  }

  /**
   * `Decompress`: writes the decoded block at `output[offset..]` and returns the number of
   * bytes written (for LZMA, the decoder's `total_out`, which is not compared with the
   * expected size).
   */
  method Decompress(b: Backends, codec: nat, stored: seq<byte>, output: array<byte>, offset: nat, expected: u32)
    returns (r: Result<nat, CodecError>)
    requires offset + expected <= output.Length
    modifies output
    ensures Decoded(b, codec, stored, expected).Err? <==> r.Err?
    ensures r.Err? ==> r.error == Decoded(b, codec, stored, expected).error
    ensures r.Ok? ==> var out := Decoded(b, codec, stored, expected).value;
      r.value == |out| &&
      output[..] == old(output[..offset]) + out + old(output[offset + |out|..])
  {
    var bytes: seq<byte>;
    if codec == NONE {
      if |stored| != expected {
        return Err(SizeMismatch(expected, |stored|));
      }
      bytes := stored;
    } else if codec == LZMA {
      if !b.lzmaDecoderInit {
        return Err(LzmaInitFailed);
      }
      if |stored| < LZMA_PROPS_SIZE {
        return Err(LzmaInputTooShort);
      }
      if |stored| + 8 >= UINT32_LIMIT {
        return Err(LzmaInputTooLong);
      }
      var fixed := BuildLzmaDecoderInput(stored, expected);
      var res := b.lzmaDecode(fixed[..]);
      if res.None? || |res.value| > expected {
        return Err(LzmaStreamFailed);
      }
      bytes := res.value;
    } else if codec == LZ4 || codec == LZ4HC {
      var res := b.lz4Decompress(stored);
      if res.None? || |res.value| > expected {
        return Err(Lz4DecodeFailed);
      }
      if |res.value| != expected {
        return Err(SizeMismatch(expected, |res.value|));
      }
      bytes := res.value;
    } else {
      return Err(UnknownCodec(codec));
    }
    CopyInto(bytes, output, offset);
    r := Ok(|bytes|);
  }

  /** The `fixedData` buffer: the size bytes are computed by the index loop of the source. */
  method BuildLzmaDecoderInput(stored: seq<byte>, expected: u32) returns (fixed: array<byte>)
    requires |stored| >= LZMA_PROPS_SIZE
    ensures fresh(fixed)
    ensures fixed[..] == LzmaDecoderInput(stored, expected)
  {
    var sizeLE := new byte[8];
    for i := 0 to 4
      invariant forall k :: 0 <= k < i ==> sizeLE[k] == SizeField(expected)[k]
      invariant forall k :: 4 <= k < 4 + i ==> sizeLE[k] == 0
    {
      sizeLE[i] := ((expected / Pow256(i)) % 256) as byte;
      EncodeLEAt(expected, 8, i);
      sizeLE[i + 4] := 0;
    }
    SizeFieldHolds(expected);
    assert sizeLE[..] == SizeField(expected);
    var whole := stored[..LZMA_PROPS_SIZE] + sizeLE[..] + stored[LZMA_PROPS_SIZE..];
    fixed := new byte[|whole|](i requires 0 <= i < |whole| => whole[i]);
    assert fixed[..] == whole;
  }

  /** The bytes `Compress` returns, or its error. */
  function Encoded(b: Backends, codec: nat, input: seq<byte>): (r: Result<seq<byte>, CodecError>)
  {
    if codec == NONE then Ok(input)
    else if codec == LZMA then
      if !b.lzmaEncoderInit then Err(LzmaInitFailed)
      else
        match b.lzmaEncode(input)
        case Some(alone) =>
          if |alone| > LzmaOutCapacity(|input|) || |alone| < LZMA_ALONE_HEADER_SIZE then Err(LzmaStreamFailed)
          else Ok(LzmaStoredForm(alone))
        case None => Err(LzmaStreamFailed)
    else if codec == LZ4 then Ok(Lz4Fit(b.lz4Compress(input), |input|))
    else if codec == LZ4HC then Ok(Lz4Fit(b.lz4CompressHC(input, LZ4HC_LEVEL), |input|))
    else Err(UnknownCodec(codec))
  }

  /** LZ4 writes into a `LZ4_compressBound` buffer; output that does not fit makes it return 0. */
  function Lz4Fit(out: seq<byte>, n: nat): seq<byte>
  {
    if |out| <= Lz4CompressBound(n) then out else []
  }

  /** The properties of `Compress` the bundle writer relies on. */
  lemma EncodedShape(b: Backends, codec: nat, input: seq<byte>)
    ensures Encoded(b, codec, input).Ok? <==>
      (codec == NONE || codec == LZ4 || codec == LZ4HC ||
       (codec == LZMA && b.lzmaEncoderInit && b.lzmaEncode(input).Some? &&
        LZMA_ALONE_HEADER_SIZE <= |b.lzmaEncode(input).value| <= LzmaOutCapacity(|input|)))
    ensures codec == NONE ==> Encoded(b, codec, input) == Ok(input)
    ensures (codec == LZ4 || codec == LZ4HC) ==> |Encoded(b, codec, input).value| <= Lz4CompressBound(|input|)
    ensures codec == LZMA && Encoded(b, codec, input).Ok? ==>
      var alone := b.lzmaEncode(input).value;
      Encoded(b, codec, input).value == alone[..LZMA_PROPS_SIZE] + alone[LZMA_ALONE_HEADER_SIZE..]
  {
  }

  /**
   * `Compress`. For LZMA the encoder's output buffer has its properties copied over the
   * size field in place (`memcpy(out + 8, out, 5)`) and is then exposed from offset 8.
   */
  method Compress(b: Backends, codec: nat, input: seq<byte>) returns (r: Result<seq<byte>, CodecError>)
    ensures r == Encoded(b, codec, input)
  {
    if codec == NONE {
      r := Ok(input);
    } else if codec == LZMA {
      if !b.lzmaEncoderInit {
        return Err(LzmaInitFailed);
      }
      var res := b.lzmaEncode(input);
      var cap := LzmaOutCapacity(|input|);
      if res.None? || |res.value| > cap || |res.value| < LZMA_ALONE_HEADER_SIZE {
        return Err(LzmaStreamFailed);
      }
      var stored := StripSizeField(res.value, cap);
      r := Ok(stored);
    } else if codec == LZ4 {
      r := Ok(Lz4Fit(b.lz4Compress(input), |input|));
    } else if codec == LZ4HC {
      r := Ok(Lz4Fit(b.lz4CompressHC(input, LZ4HC_LEVEL), |input|));
    } else {
      r := Err(UnknownCodec(codec));
    }
  }

  /** The stream copied into the output buffer, the properties moved over the size field, the tail returned. */
  method StripSizeField(alone: seq<byte>, cap: nat) returns (stored: seq<byte>)
    requires LZMA_ALONE_HEADER_SIZE <= |alone| <= cap
    ensures stored == LzmaStoredForm(alone)
  {
    var outBuf := new byte[cap];
    CopyInto(alone, outBuf, 0);
    ghost var before := outBuf[..];
    assert before[..|alone|] == alone;
    MoveProperties(outBuf);
    StrippedBytes(alone, before, outBuf[..]);
    stored := outBuf[8..|alone|];
  }

  /** The buffer after the move, between the size field and the end of the stream, is the stored form. */
  lemma StrippedBytes(alone: seq<byte>, before: seq<byte>, after: seq<byte>)
    requires LZMA_ALONE_HEADER_SIZE <= |alone| <= |before| == |after| && before[..|alone|] == alone
    requires after[8..13] == before[..5] && after[13..] == before[13..]
    ensures after[8..|alone|] == LzmaStoredForm(alone)
  {
    assert after[8..13] == alone[..LZMA_PROPS_SIZE];
    assert after[13..|alone|] == before[13..|alone|] == alone[LZMA_ALONE_HEADER_SIZE..];
    assert after[8..|alone|] == after[8..13] + after[13..|alone|];
  }

  /** `memcpy(buf + 8, buf, 5)`: the properties overwrite the size field's last 5 bytes. */
  method MoveProperties(buf: array<byte>)
    requires buf.Length >= LZMA_ALONE_HEADER_SIZE
    modifies buf
    ensures buf[..8] == old(buf[..8])
    ensures buf[8..13] == old(buf[..5])
    ensures buf[13..] == old(buf[13..])
  {
    for i := 0 to 5
      invariant forall k :: 0 <= k < buf.Length && !(8 <= k < 8 + i) ==> buf[k] == old(buf[k])
      invariant forall k :: 0 <= k < i ==> buf[8 + k] == old(buf[k])
    {
      buf[8 + i] := buf[i];
    }
  }

  /** The no-op codec round-trips every block. */
  /** `codec` encodes `x` and decoding the result, told the real size, gives `x` back. */
  predicate RoundTrips(b: Backends, codec: nat, x: seq<byte>)
  {
    |x| < UINT32_LIMIT && Encoded(b, codec, x).Ok? && Decoded(b, codec, Encoded(b, codec, x).value, |x|) == Ok(x)
  }

  lemma NoneRoundTrip(b: Backends, x: seq<byte>)
    requires |x| < UINT32_LIMIT
    ensures Decoded(b, NONE, Encoded(b, NONE, x).value, |x|) == Ok(x)
    ensures RoundTrips(b, NONE, x)
  {
  }

  /** The bytes the LZ4 library produces for `codec`: `LZ4_compress_default` for LZ4,
    * `LZ4_compress_HC` at level 12 for LZ4HC. */
  function Lz4Output(b: Backends, codec: nat, x: seq<byte>): seq<byte>
  {
    if codec == LZ4 then b.lz4Compress(x) else b.lz4CompressHC(x, LZ4HC_LEVEL)
  }

  /** An LZ4 or LZ4HC block round-trips when the library inverts its own output and that
    * output fits the `LZ4_compressBound` buffer. */
  lemma Lz4RoundTrip(b: Backends, codec: nat, x: seq<byte>)
    requires codec == LZ4 || codec == LZ4HC
    requires |x| < UINT32_LIMIT
    requires |Lz4Output(b, codec, x)| <= Lz4CompressBound(|x|)
    requires b.lz4Decompress(Lz4Output(b, codec, x)) == Some(x)
    ensures Decoded(b, codec, Encoded(b, codec, x).value, |x|) == Ok(x)
    ensures RoundTrips(b, codec, x)
  {
  }

  /**
   * An LZMA block round-trips when the library decodes its own stream once the size field
   * holds the real size: the decode fix-up undoes the encode fix-up.
   */
  lemma LzmaRoundTrip(b: Backends, x: seq<byte>)
    requires |x| < UINT32_LIMIT
    requires b.lzmaDecoderInit && Encoded(b, LZMA, x).Ok?
    requires var alone := b.lzmaEncode(x).value;
      b.lzmaDecode(alone[..LZMA_PROPS_SIZE] + SizeField(|x|) + alone[LZMA_ALONE_HEADER_SIZE..]) == Some(x)
    ensures Decoded(b, LZMA, Encoded(b, LZMA, x).value, |x|) == Ok(x)
    ensures RoundTrips(b, LZMA, x)
  {
    DecoderInputOfStoredForm(b.lzmaEncode(x).value, |x|);
  }
}
