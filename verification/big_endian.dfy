/** Big-endian encoding of 32-bit words, as used for the length and CRC fields
    of a chunk frame (section 3.2 of the PNG 1.2 specification: most significant
    byte first). */
module BigEndian {
  import opened Utils

  /** The four bytes of `x`, most significant first, peeled off the low end one
      byte at a time. */
  function ToBE32(x: u32): (r: seq<byte>)
    ensures |r| == 4
    ensures r[0] == x / 0x100_0000
    ensures r[3] == x % 0x100
  {
    var q1 := x / 0x100;
    var q2 := q1 / 0x100;
    var q3 := q2 / 0x100;
    [q3, q2 % 0x100, q1 % 0x100, x % 0x100]
  }

  /** The word whose big-endian bytes are the four bytes of `b`. */
  function FromBE32(b: seq<byte>): (r: u32)
    requires |b| == 4
    ensures r / 0x100_0000 == b[0]
    ensures r % 0x100 == b[3]
  {
    ((b[0] as int * 0x100 + b[1]) * 0x100 + b[2]) * 0x100 + b[3]
  }

  /** Division by 256 splits a number into its quotient and low byte. */
  lemma SplitLowByte(q: int, r: int)
    requires 0 <= r < 0x100
    ensures (q * 0x100 + r) / 0x100 == q
    ensures (q * 0x100 + r) % 0x100 == r
  {
  }

  /** Decoding undoes encoding. */
  lemma DecodeEncode(x: u32)
    ensures FromBE32(ToBE32(x)) == x
  {
    var q1 := x / 0x100;
    var q2 := q1 / 0x100;
    var q3 := q2 / 0x100;
    assert x == q1 * 0x100 + x % 0x100;
    assert q1 == q2 * 0x100 + q1 % 0x100;
    assert q2 == q3 * 0x100 + q2 % 0x100;
    assert q3 < 0x100;
  }

  /** Encoding undoes decoding: every four-byte sequence is the encoding of its word. */
  lemma EncodeDecode(b: seq<byte>)
    requires |b| == 4
    ensures ToBE32(FromBE32(b)) == b
  {
    var q2 := b[0] as int * 0x100 + b[1];
    var q1 := q2 * 0x100 + b[2];
    var x := q1 * 0x100 + b[3];
    assert x == FromBE32(b);
    SplitLowByte(q1, b[3]);
    SplitLowByte(q2, b[2]);
    SplitLowByte(b[0], b[1]);
  }
}
