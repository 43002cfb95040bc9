/** The three container families, their per-format constants, and the
    sniffer that picks the family from the first 16 bytes of a file. */
module Formats {
  import opened Wrappers
  import opened Bytes

  datatype Format = Mp4 | Mov | Wmv

  /** What the scanner or the remover can fail with. */
  datatype CleanerError = UnsupportedFileType | IoFailure

  /** CHUNK_MIN: the fewest bytes that can hold a top-level header. */
  function ChunkMin(fmt: Format): (n: nat)
    ensures 8 <= n <= 24
    ensures n == 24 <==> fmt == Wmv
  {
    match fmt
    case Mp4 => 8
    case Mov => 8
    case Wmv => 24
  }

  /** MAX_EXTRA_BYTES: the largest unparsed tail still treated as garbage. */
  const MaxExtraBytes: nat := 1000

  /** Number of bytes the sniffer reads from offset 0. */
  const SniffLength: nat := 16

  const FtypTag: string := "ftyp"
  const Mp4Brands: seq<string> := ["isom", "iso2", "mp41", "mp42", "M4V "]
  const MovBrand: string := "qt  "

  /** The first four bytes of the ASF Header Object GUID. */
  const AsfGuidPrefix: seq<byte> := [0x30, 0x26, 0xB2, 0x75]

  predicate IsFtyp(buffer: seq<byte>)
    requires |buffer| >= 8
  {
    Ascii(buffer[4..8]) == FtypTag
  }

  /** getFileType. An `ftyp` box whose brand is neither an MP4 nor the
      QuickTime brand is unsupported even when the file also starts with
      the ASF prefix, because that test is only reached without `ftyp`. */
  function GetFileType(f: seq<byte>): (r: Result<Format, CleanerError>)
    ensures r.Failure? ==> r.error == UnsupportedFileType
    ensures r == Success(Wmv) ==> 4 <= |f| && f[..4] == AsfGuidPrefix
    ensures r.Success? && r.value != Wmv ==> 12 <= |f| && Ascii(f[4..8]) == FtypTag
    ensures r == Success(Mov) ==> Ascii(f[8..12]) == MovBrand
    ensures r == Success(Mp4) ==> Ascii(f[8..12]) in Mp4Brands
    // conversely, `ftyp` and a known brand decide MP4 or MOV
    ensures 12 <= |f| && Ascii(f[4..8]) == FtypTag && Ascii(f[8..12]) in Mp4Brands ==> r == Success(Mp4)
    ensures 12 <= |f| && Ascii(f[4..8]) == FtypTag && Ascii(f[8..12]) == MovBrand ==> r == Success(Mov)
  {
    var buffer := ReadPadded(f, 0, SniffLength);
    assert 12 <= |f| ==> buffer[4..8] == f[4..8] && buffer[8..12] == f[8..12];
    if IsFtyp(buffer) then
      var brand := Ascii(buffer[8..12]);
      assert AsciiChar(buffer[7]) == 'p' by { assert Ascii(buffer[4..8])[3] == 'p'; }
      assert 8 <= |f|;
      assert buffer[4..8] == f[4..8];
      if brand in Mp4Brands || brand == MovBrand then
        assert AsciiChar(buffer[11]) != AsciiChar(0) by { assert brand[3] == AsciiChar(buffer[11]); }
        assert 12 <= |f|;
        assert buffer[8..12] == f[8..12];
        if brand in Mp4Brands then Success(Mp4) else Success(Mov)
      else Failure(UnsupportedFileType)
    else if buffer[..4] == AsfGuidPrefix then
      assert buffer[3] == 0x75;
      assert 4 <= |f|;
      assert buffer[..4] == f[..4];
      Success(Wmv)
    else Failure(UnsupportedFileType)
  }

  /** The sniffer depends on the first twelve bytes only, so cutting or
      extending a file beyond byte 12 keeps its format. */
  lemma SniffReadsTwelveBytes(f: seq<byte>, g: seq<byte>)
    requires 12 <= |f| && 12 <= |g| && f[..12] == g[..12]
    ensures GetFileType(f) == GetFileType(g)
  {
    var bf := ReadPadded(f, 0, SniffLength);
    var bg := ReadPadded(g, 0, SniffLength);
    assert bf[..12] == f[..12] && bg[..12] == g[..12];
    assert bf[4..8] == bg[4..8] && bf[8..12] == bg[8..12] && bf[..4] == bg[..4] by {
      assert bf[..12] == bg[..12];
    }
  }

  /** The ASF prefix alone does not make a file WMV: bytes 4..8 that read
      `ftyp` send it down the ISO-BMFF branch. */
  lemma AsfPrefixWithFtypIsNotWmv(f: seq<byte>)
    requires 8 <= |f| && f[..4] == AsfGuidPrefix && Ascii(f[4..8]) == FtypTag
    ensures GetFileType(f) != Success(Wmv)
  {
    var buffer := ReadPadded(f, 0, SniffLength);
    assert buffer[4..8] == f[4..8];
  }

  /** Conversely, with the ASF prefix and anything but `ftyp` at 4..8 the
      file is WMV whatever the rest of the prefix holds. */
  lemma AsfPrefixWithoutFtypIsWmv(f: seq<byte>)
    requires 4 <= |f| && f[..4] == AsfGuidPrefix
    requires !IsFtyp(ReadPadded(f, 0, SniffLength))
    ensures GetFileType(f) == Success(Wmv)
  {
    var buffer := ReadPadded(f, 0, SniffLength);
    assert buffer[..4] == f[..4];
  }

  /** An `ftyp` box with an unrecognised brand is rejected. */
  lemma UnknownBrandIsUnsupported(f: seq<byte>)
    requires 12 <= |f| && Ascii(f[4..8]) == FtypTag
    requires Ascii(f[8..12]) !in Mp4Brands && Ascii(f[8..12]) != MovBrand
    ensures GetFileType(f) == Failure(UnsupportedFileType)
  {
    var buffer := ReadPadded(f, 0, SniffLength);
    assert buffer[4..8] == f[4..8] && buffer[8..12] == f[8..12];
  }
}
