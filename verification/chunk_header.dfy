/** Decoding of one top-level header: an ISO-BMFF box header (ISO/IEC
    14496-12, section 4.2) for MP4 and MOV, an ASF object header for WMV.
    The encoders are the decoder's partner: every header they write is
    decoded back to the tag and length they were given. */
module ChunkHeader {
  import opened Bytes
  import opened Formats

  /** The type of a chunk: the 4-character box type, or the 16-byte object
      GUID rendered as 32 hex digits. */
  datatype ChunkType = BoxType(name: string) | ObjectGuid(hex: string)

  datatype Header = Header(chunkType: ChunkType, chunkLength: nat)

  /** Compact box size value meaning "a 64-bit largesize follows". */
  const LargeSizeMarker: nat := 1

  /** decodeChunkTypeLength. chunkData holds the ChunkMin(fmt) bytes read
      at pos; a box whose 32-bit size is 1 takes its length from the 8
      bytes at pos + 8, read into a zero-filled buffer. */
  function DecodeChunkTypeLength(fmt: Format, f: seq<byte>, pos: nat, chunkData: seq<byte>): (h: Header)
    requires |chunkData| == ChunkMin(fmt)
    ensures h.chunkType.ObjectGuid? <==> fmt == Wmv
    ensures h.chunkType.ObjectGuid? ==> h.chunkType.hex == Hex(chunkData[..16])
    ensures h.chunkType.BoxType? ==> h.chunkType.name == Ascii(chunkData[4..8])
    ensures h.chunkLength < Pow256(8)
    ensures fmt != Wmv && BigEndian(chunkData[..4]) != LargeSizeMarker ==> h.chunkLength < Pow256(4)
  {
    if fmt == Wmv then
      Header(ObjectGuid(Hex(chunkData[..16])), LittleEndian(chunkData[16..24]))
    else
      var size := BigEndian(chunkData[..4]);
      var chunkType := BoxType(Ascii(chunkData[4..8]));
      if size == LargeSizeMarker then
        Header(chunkType, BigEndian(ReadPadded(f, pos + 8, 8)))
      else
        Pow256Widths();
        Header(chunkType, size)
  }

  /** The header the walker decodes at pos: a zero-filled read of
      ChunkMin(fmt) bytes, then the decoder. */
  function HeaderAt(fmt: Format, f: seq<byte>, pos: nat): Header {
    DecodeChunkTypeLength(fmt, f, pos, ReadPadded(f, pos, ChunkMin(fmt)))
  }

  /** How many bytes from pos the decoder looks at: the whole 24-byte ASF
      header, or a box header of 8 bytes, 16 with a largesize. */
  function HeaderSpan(fmt: Format, f: seq<byte>, pos: nat): (n: nat)
    ensures ChunkMin(fmt) <= n <= 24
  {
    if fmt == Wmv then 24
    else if BigEndian(ReadPadded(f, pos, 4)) == LargeSizeMarker then 16
    else 8
  }

  /** Box header with a 32-bit size. */
  function EncodeBoxHeader(size: nat, name: seq<byte>): (r: seq<byte>)
    requires size < Pow256(4) && size != LargeSizeMarker && |name| == 4
    ensures |r| == 8
  {
    EncodeBigEndian(size, 4) + name
  }

  /** Box header with size field 1 and a 64-bit largesize. */
  function EncodeLargeBoxHeader(largeSize: nat, name: seq<byte>): (r: seq<byte>)
    requires largeSize < Pow256(8) && |name| == 4
    ensures |r| == 16
  {
    Pow256Widths();
    EncodeBigEndian(LargeSizeMarker, 4) + name + EncodeBigEndian(largeSize, 8)
  }

  /** ASF object header: the GUID and a 64-bit little-endian size. */
  function EncodeObjectHeader(size: nat, guid: seq<byte>): (r: seq<byte>)
    requires size < Pow256(8) && |guid| == 16
    ensures |r| == 24
  {
    guid + EncodeLittleEndian(size, 8)
  }

  lemma BoxHeaderRoundTrip(fmt: Format, before: seq<byte>, size: nat, name: seq<byte>, after: seq<byte>)
    requires fmt != Wmv
    requires size < Pow256(4) && size != LargeSizeMarker && |name| == 4
    ensures HeaderAt(fmt, before + EncodeBoxHeader(size, name) + after, |before|)
            == Header(BoxType(Ascii(name)), size)
    ensures HeaderSpan(fmt, before + EncodeBoxHeader(size, name) + after, |before|) == 8
  {
    var f := before + EncodeBoxHeader(size, name) + after;
    var p := |before|;
    var chunkData := ReadPadded(f, p, 8);
    assert chunkData == EncodeBoxHeader(size, name) == f[p..p + 8];
    assert chunkData[..4] == EncodeBigEndian(size, 4) == ReadPadded(f, p, 4);
    assert chunkData[4..8] == name;
  }

  /** A largesize header: the walker takes the 64-bit value as the length,
      neither the size field 1 nor the 16 header bytes. */
  lemma LargeBoxHeaderRoundTrip(fmt: Format, before: seq<byte>, largeSize: nat, name: seq<byte>, after: seq<byte>)
    requires fmt != Wmv
    requires largeSize < Pow256(8) && |name| == 4
    ensures HeaderAt(fmt, before + EncodeLargeBoxHeader(largeSize, name) + after, |before|)
            == Header(BoxType(Ascii(name)), largeSize)
    ensures HeaderSpan(fmt, before + EncodeLargeBoxHeader(largeSize, name) + after, |before|) == 16
  {
    var f := before + EncodeLargeBoxHeader(largeSize, name) + after;
    var p := |before|;
    var header := EncodeLargeBoxHeader(largeSize, name);
    assert f[p..p + 16] == header;
    var chunkData := ReadPadded(f, p, 8);
    assert chunkData == header[..8];
    assert chunkData[..4] == EncodeBigEndian(LargeSizeMarker, 4) == ReadPadded(f, p, 4);
    assert chunkData[4..8] == name;
    assert ReadPadded(f, p + 8, 8) == header[8..16] == EncodeBigEndian(largeSize, 8);
  }

  lemma ObjectHeaderRoundTrip(before: seq<byte>, size: nat, guid: seq<byte>, after: seq<byte>)
    requires size < Pow256(8) && |guid| == 16
    ensures HeaderAt(Wmv, before + EncodeObjectHeader(size, guid) + after, |before|)
            == Header(ObjectGuid(Hex(guid)), size)
  {
    var f := before + EncodeObjectHeader(size, guid) + after;
    var p := |before|;
    var chunkData := ReadPadded(f, p, 24);
    assert chunkData == EncodeObjectHeader(size, guid) == f[p..p + 24];
    assert chunkData[..16] == guid;
    assert chunkData[16..24] == EncodeLittleEndian(size, 8);
  }

  /** A box whose size field is 1 but whose largesize lies past the end of
      the file reads that largesize as 0, since the buffer is zero-filled. */
  lemma LargeSizePastEndReadsZero(fmt: Format, before: seq<byte>, name: seq<byte>)
    requires fmt != Wmv && |name| == 4
    ensures HeaderAt(fmt, before + EncodeBigEndian(LargeSizeMarker, 4) + name, |before|)
            == Header(BoxType(Ascii(name)), 0)
  {
    var f := before + EncodeBigEndian(LargeSizeMarker, 4) + name;
    var p := |before|;
    var chunkData := ReadPadded(f, p, 8);
    assert chunkData == f[p..p + 8] == EncodeBigEndian(LargeSizeMarker, 4) + name;
    assert chunkData[..4] == EncodeBigEndian(LargeSizeMarker, 4);
    assert chunkData[4..8] == name;
    var large := ReadPadded(f, p + 8, 8);
    assert large == EncodeBigEndian(0, 8);
  }

  /** The decoder reads nothing outside its span: two files that agree on
      the HeaderSpan bytes at pos decode the same header there. */
  lemma HeaderIsLocal(fmt: Format, f: seq<byte>, g: seq<byte>, pos: nat)
    requires pos + HeaderSpan(fmt, f, pos) <= |f| && pos + HeaderSpan(fmt, f, pos) <= |g|
    requires f[pos..pos + HeaderSpan(fmt, f, pos)] == g[pos..pos + HeaderSpan(fmt, f, pos)]
    ensures HeaderAt(fmt, f, pos) == HeaderAt(fmt, g, pos)
    ensures HeaderSpan(fmt, f, pos) == HeaderSpan(fmt, g, pos)
  {
    var n := HeaderSpan(fmt, f, pos);
    var m := ChunkMin(fmt);
    assert f[pos..pos + m] == f[pos..pos + n][..m];
    assert g[pos..pos + m] == g[pos..pos + n][..m];
    assert ReadPadded(f, pos, m) == ReadPadded(g, pos, m);
    assert ReadPadded(f, pos, 4) == f[pos..pos + n][..4] == g[pos..pos + n][..4] == ReadPadded(g, pos, 4);
    if n == 16 {
      assert ReadPadded(f, pos + 8, 8) == f[pos..pos + n][8..16] == g[pos..pos + n][8..16] == ReadPadded(g, pos + 8, 8);
    }
    if fmt != Wmv {
      assert ReadPadded(f, pos, m)[..4] == ReadPadded(f, pos, 4);
    }
  }
}
