/** Bytes, signed 32-bit integers and UTF-16 code units, with the two fixed
    encodings of the archive: 4-byte big-endian two's-complement integers and
    big-endian pairs of bytes per code unit. */
module Bytes {

  type byte = b: int | 0 <= b < 0x100
  type CodeUnit = c: int | 0 <= c < 0x1_0000
  type int32 = x: int | -0x8000_0000 <= x < 0x8000_0000

  /** Text as the archive stores it: raw UTF-16 code units, not validated. */
  type String16 = seq<CodeUnit>

  /** The unsigned reading of four big-endian bytes. */
  function Unsigned32(b: seq<byte>): (u: nat)
    requires |b| == 4
    ensures u < 0x1_0000_0000
  {
    ((b[0] as int * 0x100 + b[1]) * 0x100 + b[2]) * 0x100 + b[3]
  }

  /** struct.unpack(">i", b): four big-endian bytes read as a two's-complement
      signed 32-bit integer. */
  function DecodeInt32(b: seq<byte>): (v: int32)
    requires |b| == 4
    ensures v < 0 <==> b[0] >= 0x80
  {
    var u := Unsigned32(b);
    if u >= 0x8000_0000 then u - 0x1_0000_0000 else u
  }

  /** The 4-byte big-endian two's-complement encoding of `v`. */
  function EncodeInt32(v: int32): (b: seq<byte>)
    ensures |b| == 4
  {
    var u := if v < 0 then v + 0x1_0000_0000 else v;
    [u / 0x100_0000, (u / 0x1_0000) % 0x100, (u / 0x100) % 0x100, u % 0x100]
  }

  /** Integer division by 256 is determined by quotient and remainder. */
  lemma DivMod256(u: int, q: int, r: int)
    requires u == q * 0x100 + r && 0 <= r < 0x100
    ensures u / 0x100 == q && u % 0x100 == r
  {
  }

  /** Decoding the encoding of any int32 gives it back. */
  lemma DecodeEncodeInt32(v: int32)
    ensures DecodeInt32(EncodeInt32(v)) == v
  {
    var u := if v < 0 then v + 0x1_0000_0000 else v;
    var b := EncodeInt32(v);
    var u1, u2 := u / 0x100, u / 0x1_0000;
    assert u == u1 * 0x100 + b[3];
    assert u1 == u2 * 0x100 + b[2];
    assert u2 == b[0] as int * 0x100 + b[1];
    assert Unsigned32(b) == u;
  }

  /** Encoding the value of any four bytes gives the same four bytes back, so
      the two encodings are mutual inverses. */
  lemma EncodeDecodeInt32(b: seq<byte>)
    requires |b| == 4
    ensures EncodeInt32(DecodeInt32(b)) == b
  {
    var u := Unsigned32(b);
    var u2 := b[0] as int * 0x100 + b[1];
    var u1 := u2 * 0x100 + b[2];
    DivMod256(u, u1, b[3]);
    DivMod256(u1, u2, b[2]);
    DivMod256(u2, b[0], b[1]);
    assert u / 0x1_0000 == u2;
    assert u / 0x100_0000 == b[0];
  }

  /** Unpacking `4 * k` bytes as `k` consecutive big-endian int32 values. */
  function DecodeInts(b: seq<byte>): (vs: seq<int32>)
    requires |b| % 4 == 0
    ensures |vs| == |b| / 4
  {
    seq(|b| / 4, i requires 0 <= i < |b| / 4 => DecodeInt32(b[4 * i .. 4 * i + 4]))
  }

  /** Big-endian UTF-16 bytes read as code units, two bytes per unit. */
  function DecodeUnits(b: seq<byte>): (s: String16)
    requires |b| % 2 == 0
    ensures |s| == |b| / 2
  {
    seq(|b| / 2, i requires 0 <= i < |b| / 2 => b[2 * i] as int * 0x100 + b[2 * i + 1])
  }

  /** The big-endian UTF-16 bytes of a sequence of code units. */
  function EncodeUnits(s: String16): (b: seq<byte>)
    ensures |b| == 2 * |s|
  {
    seq(2 * |s|, i requires 0 <= i < 2 * |s| => if i % 2 == 0 then s[i / 2] / 0x100 else s[i / 2] % 0x100)
  }

  /** Decoding the bytes of any code-unit sequence gives it back. */
  lemma DecodeEncodeUnits(s: String16)
    ensures DecodeUnits(EncodeUnits(s)) == s
  {
    var b := EncodeUnits(s);
    forall i | 0 <= i < |s|
      ensures DecodeUnits(b)[i] == s[i]
    {
      assert (2 * i) / 2 == i && (2 * i) % 2 == 0;
      assert (2 * i + 1) / 2 == i && (2 * i + 1) % 2 == 1;
    }
  }

  /** Encoding the code units of any even-length byte sequence gives the same
      bytes back, so the two are mutual inverses. */
  lemma EncodeDecodeUnits(b: seq<byte>)
    requires |b| % 2 == 0
    ensures EncodeUnits(DecodeUnits(b)) == b
  {
    var s := DecodeUnits(b);
    forall i | 0 <= i < |b|
      ensures EncodeUnits(s)[i] == b[i]
    {
      var j := i / 2;
      assert i == 2 * j || i == 2 * j + 1;
      DivMod256(s[j], b[2 * j], b[2 * j + 1]);
    }
  }
}
