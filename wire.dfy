/**
 * Byte layouts the server puts on the wire: `BitConverter.GetBytes` of a
 * `bool` and of an `int` on a little-endian machine, and the ASCII codec
 * (`Encoding.ASCII`) used for inbound messages.
 */
module Wire {

  type byte = x: int | 0 <= x < 256

  /** The range of a C# `int`. */
  type int32 = x: int | -0x8000_0000 <= x < 0x8000_0000

  const TwoTo32: int := 0x1_0000_0000

  // ---------------------------------------------------------------------------
  // bool
  // ---------------------------------------------------------------------------

  /** `BitConverter.GetBytes(bool)`: one byte, 1 for true and 0 for false. */
  function EncodeBool(b: bool): (bs: seq<byte>)
    ensures |bs| == 1 && bs[0] < 2 && (bs[0] == 1 <==> b)
  {
    if b then [1] else [0]
  }

  /** `BitConverter.ToBoolean`: any non-zero byte reads as true. */
  function DecodeBool(b: byte): bool {
    b != 0
  }

  // ---------------------------------------------------------------------------
  // int32, little-endian two's complement
  // ---------------------------------------------------------------------------

  function Pow256(n: nat): (p: nat)
    ensures p >= 1
  {
    if n == 0 then 1 else 256 * Pow256(n - 1)
  }

  /** The `n` low-order base-256 digits of `u`, least significant first. */
  function LittleEndian(u: nat, n: nat): (bs: seq<byte>)
    ensures |bs| == n
  {
    if n == 0 then [] else [u % 256] + LittleEndian(u / 256, n - 1)
  }

  /** The unsigned number whose base-256 digits, least significant first, are `bs`. */
  function FromLittleEndian(bs: seq<byte>): (u: nat)
    ensures u < Pow256(|bs|)
  {
    if bs == [] then 0 else bs[0] + 256 * FromLittleEndian(bs[1..])
  }

  /** Reading back the digits of a number that fits in `n` bytes gives the number. */
  lemma {:induction false} FromLittleEndianInverse(u: nat, n: nat)
    requires u < Pow256(n)
    ensures FromLittleEndian(LittleEndian(u, n)) == u
  {
    if n > 0 {
      FromLittleEndianInverse(u / 256, n - 1);
      assert LittleEndian(u, n)[1..] == LittleEndian(u / 256, n - 1);
    }
  }

  /** Writing the digits of a byte string's value gives back the byte string. */
  lemma {:induction false} LittleEndianInverse(bs: seq<byte>)
    ensures LittleEndian(FromLittleEndian(bs), |bs|) == bs
  {
    if bs != [] {
      var u := FromLittleEndian(bs);
      LittleEndianInverse(bs[1..]);
      assert u % 256 == bs[0] && u / 256 == FromLittleEndian(bs[1..]);
      assert bs == [bs[0]] + bs[1..];
    }
  }

  /** `BitConverter.GetBytes(int)`: the two's-complement bits, least significant byte first. */
  function EncodeInt32(v: int32): (bs: seq<byte>)
    ensures |bs| == 4
  {
    LittleEndian(if v < 0 then v + TwoTo32 else v, 4)
  }

  /** `BitConverter.ToInt32` on four bytes. */
  function DecodeInt32(bs: seq<byte>): (v: int32)
    requires |bs| == 4
  {
    var u := FromLittleEndian(bs);
    assert Pow256(4) == TwoTo32;
    if u < 0x8000_0000 then u else u - TwoTo32
  }

  /** Decoding an encoded `int` gives it back. */
  lemma Int32RoundTrip(v: int32)
    ensures DecodeInt32(EncodeInt32(v)) == v
  {
    assert Pow256(4) == TwoTo32;
    FromLittleEndianInverse(if v < 0 then v + TwoTo32 else v, 4);
  }

  /** Every four bytes are the encoding of exactly one `int`: the layout wastes no pattern. */
  lemma Int32Bijective(bs: seq<byte>)
    requires |bs| == 4
    ensures EncodeInt32(DecodeInt32(bs)) == bs
  {
    assert Pow256(4) == TwoTo32;
    LittleEndianInverse(bs);
  }

  // ---------------------------------------------------------------------------
  // ASCII
  // ---------------------------------------------------------------------------

  /** The code for characters outside ASCII: `?`. */
  const QuestionMark: byte := 63

  /** `Encoding.ASCII.GetString`: bytes 0..127 map to the same code point, all others to `?`. */
  function AsciiDecode(bs: seq<byte>): (s: string)
    ensures |s| == |bs|
    ensures forall i :: 0 <= i < |bs| ==> s[i] == if bs[i] < 128 then bs[i] as char else '?'
  {
    if bs == [] then []
    else [if bs[0] < 128 then bs[0] as char else '?'] + AsciiDecode(bs[1..])
  }

  /** `Encoding.ASCII.GetBytes`: characters below U+0080 become their code, all others `?`. */
  function AsciiEncode(s: string): (bs: seq<byte>)
    ensures |bs| == |s|
    ensures forall i :: 0 <= i < |s| ==> bs[i] == if (s[i] as int) < 128 then s[i] as int else QuestionMark
  {
    if s == [] then []
    else [if (s[0] as int) < 128 then s[0] as int else QuestionMark] + AsciiEncode(s[1..])
  }

  predicate IsAscii(s: string) {
    forall i :: 0 <= i < |s| ==> (s[i] as int) < 128
  }

  /** An ASCII text sent by a client arrives unchanged. */
  lemma {:induction false} AsciiRoundTrip(s: string)
    requires IsAscii(s)
    ensures AsciiDecode(AsciiEncode(s)) == s
  {
    if s != [] {
      AsciiRoundTrip(s[1..]);
      assert AsciiEncode(s)[1..] == AsciiEncode(s[1..]);
      assert s == [s[0]] + s[1..];
    }
  }

  /** Decoding never yields a character outside ASCII. */
  lemma AsciiDecodeIsAscii(bs: seq<byte>)
    ensures IsAscii(AsciiDecode(bs))
  {
  }
}
