/** The four-byte chunk type tag (section 3.3 of the PNG 1.2 specification,
    "Chunk naming conventions"). Each byte carries one property in bit 5, the
    ASCII case bit: uppercase (bit 5 clear) or lowercase (bit 5 set). */
module ChunkTypes {
  import opened Utils
  import opened Results
  import Utf8

  type TypeCode = s: seq<byte> | |s| == 4 witness [0, 0, 0, 0]

  /** A chunk type tag. Construction does not validate the bytes; `IsValid`
      does, on demand. Two tags are equal exactly when their bytes are. */
  datatype ChunkType = ChunkType(code: TypeCode)

  /** The raw type code bytes. */
  function Bytes(t: ChunkType): (r: TypeCode)
    ensures ChunkType(r) == t
  {
    t.code
  }

  // The four property bits. Each is bit 5 of one byte, and each predicate also
  // requires that byte to be a letter.

  /** Ancillary bit (byte 0): a critical chunk has an uppercase letter here. */
  function IsCritical(t: ChunkType): (r: bool)
    ensures r <==> IsValidByte(t.code[0]) && !CaseBit(t.code[0])
  {
    IsValidByte(t.code[0]) && IsAsciiUppercase(t.code[0])
  }

  /** Private bit (byte 1): a public chunk has an uppercase letter here. */
  function IsPublic(t: ChunkType): (r: bool)
    ensures r <==> IsValidByte(t.code[1]) && !CaseBit(t.code[1])
  {
    IsValidByte(t.code[1]) && IsAsciiUppercase(t.code[1])
  }

  /** Reserved bit (byte 2): must be an uppercase letter in conforming types. */
  function IsReservedBitValid(t: ChunkType): (r: bool)
    ensures r <==> IsValidByte(t.code[2]) && !CaseBit(t.code[2])
  {
    IsValidByte(t.code[2]) && IsAsciiUppercase(t.code[2])
  }

  /** Safe-to-copy bit (byte 3): a safe-to-copy chunk has a lowercase letter here. */
  function IsSafeToCopy(t: ChunkType): (r: bool)
    ensures r <==> IsValidByte(t.code[3]) && CaseBit(t.code[3])
  {
    IsValidByte(t.code[3]) && IsAsciiLowercase(t.code[3])
  }

  /** A valid type has four ASCII letters and its reserved bit clear. */
  function IsValid(t: ChunkType): (r: bool)
    ensures r <==> (forall i | 0 <= i < 4 :: IsAsciiLowercase(WithCaseBit(t.code[i]))) && !CaseBit(t.code[2])
  {
    (forall i | 0 <= i < 4 :: IsValidByte(t.code[i])) && IsReservedBitValid(t)
  }

  /** Construction from a four-byte array. The emptiness check can never fire
      on a four-byte array, so this always succeeds and keeps the bytes as given. */
  function TryFromBytes(value: TypeCode): (r: Result<ChunkType>)
    ensures r.Ok? && Bytes(r.value) == value
  {
    if |value| == 0 then Err(Empty) else Ok(ChunkType(value))
  }

  /** Construction from text, given as its UTF-8 bytes: byte i of the code is
      byte i of the text, zero where the text is shorter. The source indexes a
      four-byte buffer without a bound check, so text longer than four bytes
      is outside its domain. Never fails. */
  function FromStr(s: seq<byte>): (r: Result<ChunkType>)
    requires |s| <= 4
    ensures r.Ok?
    ensures forall i | 0 <= i < 4 :: r.value.code[i] == (if i < |s| then s[i] else 0)
  {
    Ok(ChunkType(s + seq(4 - |s|, _ => 0)))
  }

  const InvalidUtf8Text: string := "Utf8Error: Invalid UTF-8"

  /** The display form: the code decoded as UTF-8, or a fixed placeholder when it
      is not well-formed. An all-ASCII code displays as its four characters. */
  function Display(t: ChunkType): (r: string)
    ensures (forall i | 0 <= i < 4 :: t.code[i] < 0x80) ==>
              |r| == 4 && forall i | 0 <= i < 4 :: r[i] as int == t.code[i] as int
  {
    match Utf8.Decode(t.code)
    case Some(text) => text
    case None => InvalidUtf8Text
  }

  /** Text conversion inverts `Bytes`: reading a type's own bytes as text gives
      the same type back, and so does the byte-array constructor. */
  lemma FromStrOfBytes(t: ChunkType)
    ensures FromStr(Bytes(t)) == Ok(t)
    ensures TryFromBytes(Bytes(t)) == Ok(t)
  {
    assert FromStr(Bytes(t)).value.code == t.code;
  }

  /** Equality of types is equality of their bytes, whichever constructor made
      them: text of four bytes and the byte array with those bytes agree. */
  lemma ConstructorsAgree(s: seq<byte>, value: TypeCode)
    requires |s| <= 4
    ensures FromStr(s) == TryFromBytes(value) <==> s + seq(4 - |s|, _ => 0) == value
  {
    var padded := s + seq(4 - |s|, _ => 0);
    if FromStr(s) == TryFromBytes(value) {
      assert forall i | 0 <= i < 4 :: padded[i] == value[i];
    }
  }
}
