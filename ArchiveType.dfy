/**
 * `ArchiveUtil` (the Kotlin tools object): the archive type read from a file's first bytes,
 * `isArchive`, and which extraction library each entry point hands an archive to. The file
 * is given by its path, whether it exists and is a directory, and its content (`None` when
 * opening or reading it throws); the read of the header fills as many of its four bytes as
 * the file holds.
 */
module ArchiveType {
  import opened Wrappers
  import opened Strings
  import JavaFile

  datatype ArchiveFileType = ZIP | SevenZ | RAR | UNKNOWN

  /** `b.toInt()` of a signed Kotlin byte, as the 32 bits of an `Int`. */
  function SignExtend(b: bv8): bv32
  {
    if b >= 0x80 then (b as bv32) | 0xFFFF_FF00 else b as bv32
  }

  /** One step of the loop: shift left by 8, then `or` in the sign-extended byte. */
  function Push(headHex: bv32, b: bv8): bv32
  {
    (headHex << 8) | SignExtend(b)
  }

  /** `headHex` after the loop over the header bytes. */
  function HeadHex(head: seq<bv8>): bv32
  {
    if head == [] then 0 else Push(HeadHex(head[..|head| - 1]), head[|head| - 1])
  }

  /** The four header bytes: the first bytes of the file, the rest left 0. */
  function Head(content: seq<bv8>): (r: seq<bv8>)
    ensures |r| == 4
  {
    if |content| >= 4 then content[..4] else content + seq(4 - |content|, _ => 0 as bv8)
  }

  /** The type the folded header means. */
  function TypeOfHeadHex(headHex: bv32): ArchiveFileType
  {
    if headHex == 0x504B_0304 then ZIP
    else if headHex == 0xFFFF_FFAF then SevenZ  // the `Int` -0x51
    else if headHex == 0x5261_7221 then RAR
    else UNKNOWN
  }

  /** `getFileType`: ".apk" files are never sniffed; an unreadable or empty file is unknown. */
  function FileType(path: string, content: Option<seq<bv8>>): ArchiveFileType
  {
    if EqualsIgnoreCase(JavaFile.Extension(path), "apk") then UNKNOWN
    else
      match content
      case None => UNKNOWN
      case Some(bytes) => if bytes == [] then UNKNOWN else TypeOfHeadHex(HeadHex(Head(bytes)))
  }

  /** `getFileType`, with its loop over the header bytes. */
  method GetFileType(path: string, content: Option<seq<bv8>>) returns (t: ArchiveFileType)
    ensures t == FileType(path, content)
  {
    if EqualsIgnoreCase(JavaFile.Extension(path), "apk") {
      return UNKNOWN;
    }
    if content.None? || content.value == [] {
      return UNKNOWN;
    }
    var head := Head(content.value);
    var headHex: bv32 := 0;
    for i := 0 to |head|
      invariant headHex == HeadHex(head[..i])
    {
      assert head[..i + 1][..i] == head[..i];
      headHex := Push(headHex, head[i]);
    }
    assert head[..|head|] == head;
    t := TypeOfHeadHex(headHex);
  }

  /** The fold of four bytes, written out. */
  lemma HeadHexFour(h: seq<bv8>)
    requires |h| == 4
    ensures HeadHex(h) == Push(Push(Push(Push(0, h[0]), h[1]), h[2]), h[3])
  {
    assert h[..3][..2] == h[..2] && h[..3][2] == h[2];
    assert h[..2][..1] == h[..1] && h[..2][1] == h[1];
    assert h[..1][..0] == [] && h[..1][0] == h[0];
    assert HeadHex(h[..1]) == Push(0, h[0]);
    assert HeadHex(h[..2]) == Push(HeadHex(h[..1]), h[1]);
    assert HeadHex(h[..3]) == Push(HeadHex(h[..2]), h[2]);
    assert HeadHex(h) == Push(HeadHex(h[..3]), h[3]);
  }

  lemma FoldLowBits(b0: bv8, b1: bv8, b2: bv8, b3: bv8)
    requires b0 < 0x80 && b1 < 0x80 && b2 < 0x80 && b3 < 0x80
    ensures Push(Push(Push(Push(0, b0), b1), b2), b3) ==
      ((b0 as bv32) << 24) | ((b1 as bv32) << 16) | ((b2 as bv32) << 8) | (b3 as bv32)
  {
  }

  /** The low eight bits of the fold are those of the last byte. */
  lemma FoldLastByte(x: bv32, b: bv8)
    ensures Push(x, b) & 0xFF == b as bv32
  {
  }

  /** A negative byte sets every higher bit of the fold. */
  lemma FoldNegative(x: bv32, b: bv8)
    requires b >= 0x80
    ensures Push(x, b) == SignExtend(b)
  {
  }

  /** A negative byte anywhere makes the folded `Int` negative. */
  lemma FoldHighBit(h: seq<bv8>)
    requires |h| == 4
    requires exists i :: 0 <= i < 4 && h[i] >= 0x80
    ensures HeadHex(h) & 0x8000_0000 != 0
  {
    HeadHexFour(h);
  }

  /** Only the bytes 50 4B 03 04 fold to the ZIP value. */
  lemma ZipIff(h: seq<bv8>)
    requires |h| == 4
    ensures TypeOfHeadHex(HeadHex(h)) == ZIP <==> h == [0x50, 0x4B, 0x03, 0x04]
  {
    HeadHexFour(h);
    if forall i :: 0 <= i < 4 ==> h[i] < 0x80 {
      FoldLowBits(h[0], h[1], h[2], h[3]);
    } else {
      FoldHighBit(h);
    }
  }

  /** Only the bytes 52 61 72 21 fold to the RAR value. */
  lemma RarIff(h: seq<bv8>)
    requires |h| == 4
    ensures TypeOfHeadHex(HeadHex(h)) == RAR <==> h == [0x52, 0x61, 0x72, 0x21]
  {
    HeadHexFour(h);
    if forall i :: 0 <= i < 4 ==> h[i] < 0x80 {
      FoldLowBits(h[0], h[1], h[2], h[3]);
    } else {
      FoldHighBit(h);
    }
  }

  /** Sign extension makes every header whose fourth byte is AF fold to -0x51, whatever the
    * first three bytes are, and only those: all of them are taken for 7z archives. */
  lemma SevenZIff(h: seq<bv8>)
    requires |h| == 4
    ensures TypeOfHeadHex(HeadHex(h)) == SevenZ <==> h[3] == 0xAF
  {
    HeadHexFour(h);
    var x := Push(Push(Push(0, h[0]), h[1]), h[2]);
    FoldLastByte(x, h[3]);
    if h[3] >= 0x80 {
      FoldNegative(x, h[3]);
    }
  }

  /** The type of a file: ".apk", unreadable, empty and one- to three-byte files are unknown;
    * otherwise the first four bytes decide, as the three lemmas above state. */
  lemma FileTypeMeaning(path: string, content: Option<seq<bv8>>)
    ensures EqualsIgnoreCase(JavaFile.Extension(path), "apk") ==> FileType(path, content) == UNKNOWN
    ensures content.None? || (content.Some? && |content.value| < 4) ==> FileType(path, content) == UNKNOWN
    ensures !EqualsIgnoreCase(JavaFile.Extension(path), "apk") && content.Some? && |content.value| >= 4 ==>
      var h := content.value[..4];
      (FileType(path, content) == ZIP <==> h == [0x50, 0x4B, 0x03, 0x04]) &&
      (FileType(path, content) == SevenZ <==> h[3] == 0xAF) &&
      (FileType(path, content) == RAR <==> h == [0x52, 0x61, 0x72, 0x21])
  {
    if content.Some? && content.value != [] {
      var h := Head(content.value);
      ZipIff(h);
      RarIff(h);
      SevenZIff(h);
      if |content.value| < 4 {
        assert h[3] == 0;
        assert h != [0x50, 0x4B, 0x03, 0x04] by { assert h[3] != 0x04; }
        assert h != [0x52, 0x61, 0x72, 0x21] by { assert h[3] != 0x21; }
      }
    }
  }

  /** `isArchive`. */
  predicate IsArchive(path: string, exists_: bool, isDirectory: bool, content: Option<seq<bv8>>)
  {
    exists_ && !isDirectory && FileType(path, content) in {ZIP, SevenZ, RAR}
  }

  /** Where an archive is handed. */
  datatype Backend = Zip4j | SevenZipJBinding | Unsupported

  /** `password.isNullOrEmpty()`. */
  predicate NoPassword(password: Option<string>)
  {
    password.None? || password.value == []
  }

  /** The routing `decompression`, `extractSpecificFile` and `getArchiveItemInputStream`
    * share: a password-protected ZIP goes to 7-Zip, any other ZIP to zip4j. */
  function Route(t: ArchiveFileType, password: Option<string>): Backend
  {
    match t
    case ZIP => if !NoPassword(password) then SevenZipJBinding else Zip4j
    case SevenZ => SevenZipJBinding
    case RAR => SevenZipJBinding
    case UNKNOWN => Unsupported
  }

  /** An entry point refuses a file (false or null) exactly when `isArchive` would be false
    * for it although it exists as a file; zip4j is used only for ZIP files without a
    * password, and the overload of `extractSpecificFile` without a password never uses
    * 7-Zip for a ZIP. */
  lemma RouteMeaning(path: string, content: Option<seq<bv8>>, password: Option<string>)
    ensures var t := FileType(path, content);
      (Route(t, password) == Unsupported <==> !IsArchive(path, true, false, content)) &&
      (Route(t, password) == Zip4j <==> t == ZIP && NoPassword(password)) &&
      (Route(t, password) == SevenZipJBinding <==> t in {SevenZ, RAR} || (t == ZIP && !NoPassword(password))) &&
      (t == ZIP ==> Route(t, None) == Zip4j)
  {
  }

  /** A missing file or a directory is never an archive. */
  lemma IsArchiveMeaning(path: string, exists_: bool, isDirectory: bool, content: Option<seq<bv8>>)
    ensures !exists_ || isDirectory ==> !IsArchive(path, exists_, isDirectory, content)
    ensures exists_ && !isDirectory ==>
      (IsArchive(path, exists_, isDirectory, content) <==> FileType(path, content) != UNKNOWN)
  {
  }
}
