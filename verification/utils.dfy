/** Byte-level helpers shared by the codec: the byte and 32-bit word types,
    the ASCII-letter test used for chunk type codes, and the CRC-32 checksum. */
module Utils {

  /** An unsigned 8-bit value. */
  type byte = b: int | 0 <= b < 0x100

  /** An unsigned 32-bit value. */
  type u32 = x: int | 0 <= x < 0x1_0000_0000

  predicate IsAscii(b: byte) {
    b < 0x80
  }

  predicate IsAsciiUppercase(b: byte) {
    'A' as int <= b <= 'Z' as int
  }

  predicate IsAsciiLowercase(b: byte) {
    'a' as int <= b <= 'z' as int
  }

  /** Bit 5 (value 32) of `b`: the bit that tells the case of an ASCII letter. */
  predicate CaseBit(b: byte) {
    (b / 0x20) % 2 == 1
  }

  /** `b` with bit 5 set. */
  function WithCaseBit(b: byte): byte {
    if CaseBit(b) then b else b + 0x20
  }

  /** A byte that may appear in a chunk type code: an ASCII letter A-Z or a-z.
      Equivalently, setting bit 5 of it gives a lowercase letter. */
  function IsValidByte(b: byte): (r: bool)
    ensures r <==> (65 <= b <= 90 || 97 <= b <= 122)
    ensures r <==> IsAsciiLowercase(WithCaseBit(b))
    ensures b >= 0x80 ==> !r
  {
    IsAscii(b) && (IsAsciiUppercase(b) || IsAsciiLowercase(b))
  }

  /** One step of the reflected CRC-32 shift register (generator polynomial
      0x04C11DB7, reflected to 0xEDB88320) fed with one input bit: shift right,
      and xor in the polynomial when the bit shifted out differs from the input bit. */
  function CrcFeedBit(c: bv32, bit: bool): bv32 {
    if (c & 1 == 1) != bit then (c >> 1) ^ 0xEDB8_8320 else c >> 1
  }

  /** The register after feeding the low `k` bits of `b`, least significant first. */
  function CrcFeedBits(c: bv32, b: nat, k: nat): bv32
    decreases k
  {
    if k == 0 then c else CrcFeedBits(CrcFeedBit(c, b % 2 == 1), b / 2, k - 1)
  }

  /** The register after absorbing the first `n` bytes of `s`, from the initial value. */
  function CrcRegister(s: seq<byte>, n: nat): bv32
    requires n <= |s|
    decreases n
  {
    if n == 0 then 0xFFFF_FFFF else CrcFeedBits(CrcRegister(s, n - 1), s[n - 1], 8)
  }

  /** CRC-32/ISO-HDLC (the checksum of section 3.4 of the PNG 1.2 specification):
      initial register 0xFFFFFFFF, reflected input and output, final xor 0xFFFFFFFF.
      The codec relies only on this being a function of its input. */
  function Crc32(s: seq<byte>): u32 {
    (CrcRegister(s, |s|) ^ 0xFFFF_FFFF) as int
  }

  /** The checksum is computed as a stream: the register after `n` bytes depends
      only on those `n` bytes, whatever follows them. */
  lemma {:induction false} RegisterOfPrefix(s: seq<byte>, t: seq<byte>, n: nat)
    requires n <= |s| && n <= |t| && s[..n] == t[..n]
    ensures CrcRegister(s, n) == CrcRegister(t, n)
    decreases n
  {
    if n > 0 {
      assert s[..n - 1] == s[..n][..n - 1] && t[..n - 1] == t[..n][..n - 1];
      assert s[n - 1] == s[..n][n - 1] && t[n - 1] == t[..n][n - 1];
      RegisterOfPrefix(s, t, n - 1);
    }
  }
}
