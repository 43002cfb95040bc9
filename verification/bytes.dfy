/** Byte-level vocabulary of the scanner: zero-filled reads, big- and
    little-endian unsigned integers, and the two byte-to-text decodings
    (Node's `ascii` and `hex`) the scanner uses for chunk type tags. */
module Bytes {

  type byte = b: int | 0 <= b < 256

  /** 256 to the power n: the number of values an n-byte unsigned field holds. */
  function Pow256(n: nat): (r: nat)
    ensures r > 0
  {
    if n == 0 then 1 else 256 * Pow256(n - 1)
  }

  lemma Pow256Widths()
    ensures Pow256(4) == 0x1_0000_0000
    ensures Pow256(8) == 0x1_0000_0000_0000_0000
  {
    assert Pow256(2) == 0x1_0000;
    assert Pow256(4) == 0x1_0000_0000;
    assert Pow256(6) == 0x1_0000_0000_0000;
  }

  /** A read of n bytes at pos into a zero-filled buffer of size n: the
      bytes that exist are copied, the bytes past the end of the file stay 0. */
  function ReadPadded(f: seq<byte>, pos: nat, n: nat): (r: seq<byte>)
    ensures |r| == n
    ensures pos + n <= |f| ==> r == f[pos..pos + n]
    ensures forall i :: 0 <= i < n ==> r[i] == if pos + i < |f| then f[pos + i] else 0
  {
    seq(n, i requires 0 <= i < n => if pos + i < |f| then f[pos + i] else 0 as byte)
  }

  /** Unsigned big-endian value of s (Buffer.readUInt32BE / readBigUInt64BE). */
  function BigEndian(s: seq<byte>): (r: nat)
    ensures r < Pow256(|s|)
  {
    if |s| == 0 then 0
    else
      var high := BigEndian(s[..|s| - 1]);
      assert high * 256 + s[|s| - 1] < Pow256(|s|) by {
        assert high <= Pow256(|s| - 1) - 1;
        assert high * 256 <= Pow256(|s|) - 256;
      }
      high * 256 + s[|s| - 1]
  }

  /** Unsigned little-endian value of s (Buffer.readBigUInt64LE). */
  function LittleEndian(s: seq<byte>): (r: nat)
    ensures r < Pow256(|s|)
  {
    if |s| == 0 then 0
    else
      var high := LittleEndian(s[1..]);
      assert s[0] + 256 * high < Pow256(|s|) by {
        assert high <= Pow256(|s| - 1) - 1;
        assert 256 * high <= Pow256(|s|) - 256;
      }
      s[0] + 256 * high
  }

  /** A field whose bytes are all zero but the last has the last byte as
      its value. */
  lemma {:induction false} BigEndianLowByte(s: seq<byte>)
    requires |s| > 0 && forall i :: 0 <= i < |s| - 1 ==> s[i] == 0
    ensures BigEndian(s) == s[|s| - 1]
    decreases |s|
  {
    var init := s[..|s| - 1];
    if |init| > 0 {
      BigEndianLowByte(init);
      assert init[|init| - 1] == 0;
    }
  }

  lemma DivideByBase(n: nat, width: nat)
    requires 0 < width && n < Pow256(width)
    ensures n / 256 < Pow256(width - 1)
  {
  }

  /** The width-byte big-endian encoding of n; decoding it gives n back. */
  function EncodeBigEndian(n: nat, width: nat): (r: seq<byte>)
    requires n < Pow256(width)
    ensures |r| == width
    ensures BigEndian(r) == n
  {
    if width == 0 then []
    else
      DivideByBase(n, width);
      var r := EncodeBigEndian(n / 256, width - 1) + [n % 256];
      assert r[..|r| - 1] == EncodeBigEndian(n / 256, width - 1);
      r
  }

  /** The width-byte little-endian encoding of n; decoding it gives n back. */
  function EncodeLittleEndian(n: nat, width: nat): (r: seq<byte>)
    requires n < Pow256(width)
    ensures |r| == width
    ensures LittleEndian(r) == n
  {
    if width == 0 then []
    else
      DivideByBase(n, width);
      var r := [n % 256] + EncodeLittleEndian(n / 256, width - 1);
      assert r[1..] == EncodeLittleEndian(n / 256, width - 1);
      r
  }

  /** The other direction of the round trip: a big-endian field is the
      encoding of its own value, so two fields with one value are equal. */
  lemma {:induction false} EncodeDecodeBigEndian(s: seq<byte>)
    ensures EncodeBigEndian(BigEndian(s), |s|) == s
  {
    if |s| > 0 {
      var init := s[..|s| - 1];
      EncodeDecodeBigEndian(init);
      var n := BigEndian(s);
      assert n / 256 == BigEndian(init) && n % 256 == s[|s| - 1];
      assert s == init + [s[|s| - 1]];
    }
  }

  lemma {:induction false} EncodeDecodeLittleEndian(s: seq<byte>)
    ensures EncodeLittleEndian(LittleEndian(s), |s|) == s
  {
    if |s| > 0 {
      EncodeDecodeLittleEndian(s[1..]);
      var n := LittleEndian(s);
      assert n / 256 == LittleEndian(s[1..]) && n % 256 == s[0];
      assert s == [s[0]] + s[1..];
    }
  }

  /** Node's `ascii` decoding of one byte: the high bit is cleared and the
      remaining 7 bits are taken as a character code. */
  function AsciiChar(b: byte): (c: char)
    ensures c as int < 128
    ensures b < 128 ==> c as int == b
  {
    (b % 128) as char
  }

  /** Node's Buffer.toString('ascii') over a byte range. */
  function Ascii(s: seq<byte>): (r: string)
    ensures |r| == |s|
  {
    seq(|s|, i requires 0 <= i < |s| => AsciiChar(s[i]))
  }

  /** One lower-case hexadecimal digit, as Buffer.toString('hex') writes it. */
  function HexDigit(d: nat): (c: char)
    requires d < 16
  {
    if d < 10 then ('0' as int + d) as char else ('a' as int + d - 10) as char
  }

  function HexValue(c: char): nat {
    if '0' <= c <= '9' then c as int - '0' as int
    else if 'a' <= c <= 'f' then c as int - 'a' as int + 10
    else 0
  }

  /** Buffer.toString('hex'): two lower-case digits per byte, high nibble first. */
  function Hex(s: seq<byte>): (r: string)
    ensures |r| == 2 * |s|
  {
    if |s| == 0 then ""
    else [HexDigit(s[0] / 16), HexDigit(s[0] % 16)] + Hex(s[1..])
  }

  /** Reads a hex string back into bytes, two digits at a time. */
  function UnHex(t: string): seq<byte>
    decreases |t|
  {
    if |t| < 2 then []
    else [(HexValue(t[0]) * 16 + HexValue(t[1])) % 256] + UnHex(t[2..])
  }

  /** The hex rendering of a type identifier loses nothing: distinct
      identifiers are rendered as distinct strings. */
  lemma {:induction false} HexRoundTrip(s: seq<byte>)
    ensures UnHex(Hex(s)) == s
  {
    if |s| > 0 {
      var t := Hex(s);
      assert HexValue(t[0]) == s[0] / 16 && HexValue(t[1]) == s[0] % 16;
      assert t[2..] == Hex(s[1..]);
      HexRoundTrip(s[1..]);
    }
  }
}
