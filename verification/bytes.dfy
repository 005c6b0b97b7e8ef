/** Fixed-width unsigned integers and their byte encodings, standing in for the
    byte reader/writer the crate uses for 32-bit fields. */
module Bytes {

  type byte = x: int | 0 <= x < 0x100
  type u32 = x: int | 0 <= x < 0x1_0000_0000

  /** Byte order chosen by the caller's context. */
  datatype Endian = LE | BE

  function Zeros(n: nat): (z: seq<byte>)
    ensures |z| == n && forall k :: 0 <= k < n ==> z[k] == 0
  {
    seq(n, _ => 0)
  }

  predicate AllZero(b: seq<byte>)
  {
    forall k :: 0 <= k < |b| ==> b[k] == 0
  }

  /** The four bytes of `x`, least significant first for LE, most significant first for BE. */
  function EncodeU32(x: u32, e: Endian): (b: seq<byte>)
    ensures |b| == 4
    ensures e.LE? ==> x == b[0] as int + 0x100 * b[1] as int + 0x1_0000 * b[2] as int + 0x100_0000 * b[3] as int
    ensures e.BE? ==> x == b[3] as int + 0x100 * b[2] as int + 0x1_0000 * b[1] as int + 0x100_0000 * b[0] as int
  {
    var q1 := x / 0x100;
    var q2 := q1 / 0x100;
    assert x == x % 0x100 + 0x100 * q1;
    assert q1 == q1 % 0x100 + 0x100 * q2;
    assert x / 0x1_0000 == q2;
    assert q2 == q2 % 0x100 + 0x100 * (x / 0x100_0000);
    var b0, b1, b2, b3 := x % 0x100, (x / 0x100) % 0x100, (x / 0x1_0000) % 0x100, x / 0x100_0000;
    if e.LE? then [b0, b1, b2, b3] else [b3, b2, b1, b0]
  }

  /** The value of four bytes read in byte order `e`: the one value whose
      encoding in that order is exactly those bytes. */
  function DecodeU32(b: seq<byte>, e: Endian): (x: u32)
    requires |b| == 4
    ensures EncodeU32(x, e) == b
  {
    var lo: seq<int> := if e.LE? then b else [b[3], b[2], b[1], b[0]];
    var x := lo[0] + 0x100 * lo[1] + 0x1_0000 * lo[2] + 0x100_0000 * lo[3];
    assert x == lo[0] + 0x100 * (lo[1] + 0x100 * (lo[2] + 0x100 * lo[3]));
    assert x % 0x100 == lo[0] && x / 0x100 == lo[1] + 0x100 * (lo[2] + 0x100 * lo[3]);
    assert (x / 0x100) % 0x100 == lo[1];
    assert x / 0x1_0000 == lo[2] + 0x100 * lo[3];
    assert (x / 0x1_0000) % 0x100 == lo[2];
    assert x / 0x100_0000 == lo[3];
    x
  }

  /** Decoding undoes encoding, in either byte order. */
  lemma DecodeEncodeU32(x: u32, e: Endian)
    ensures DecodeU32(EncodeU32(x, e), e) == x
  {
  }

  /** A value is zero exactly when its encoding is four zero bytes. */
  lemma EncodeU32Zero(x: u32, e: Endian)
    ensures AllZero(EncodeU32(x, e)) <==> x == 0
  {
    if AllZero(EncodeU32(x, e)) {
      DecodeEncodeU32(x, e);
      var b := EncodeU32(x, e);
      assert b[0] == 0 && b[1] == 0 && b[2] == 0 && b[3] == 0;
    }
  }
}
