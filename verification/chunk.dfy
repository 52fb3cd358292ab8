/** One chunk frame (section 3.2 of the PNG 1.2 specification):
      length (4 bytes, big-endian) | type (4 bytes) | data (length bytes) | CRC (4 bytes, big-endian)
    where the CRC covers the type and data bytes (section 3.4). */
module Chunks {
  import opened Utils
  import opened Results
  import opened BigEndian
  import opened ChunkTypes
  import Utf8

  /** The largest data length a chunk may declare, 2^31 - 1. */
  const MAX_LEN: u32 := 0x7FFF_FFFF

  /** The number of bytes a frame adds around its data. */
  const FRAME_OVERHEAD: nat := 12

  datatype Chunk = Chunk(length: u32, chunkType: ChunkType, data: seq<byte>, crc: u32)

  /** The bytes the CRC of a chunk covers. */
  function CrcInput(t: ChunkType, data: seq<byte>): seq<byte> {
    Bytes(t) + data
  }

  /** The invariant of every chunk built by `New` or accepted by `Parse`: the
      length field counts the data, stays within `MAX_LEN`, and the CRC field is
      the checksum of type and data. */
  predicate Valid(c: Chunk) {
    && c.length == |c.data|
    && c.length <= MAX_LEN
    && c.crc == Crc32(CrcInput(c.chunkType, c.data))
  }

  /** Builds a chunk from a type and data, computing length and CRC. The source
      casts the data length to 32 bits, so data of 2^32 bytes or more is outside
      its domain; data within `MAX_LEN` gives a valid chunk. */
  function New(t: ChunkType, data: seq<byte>): (c: Chunk)
    requires |data| < 0x1_0000_0000
    ensures c.chunkType == t && c.data == data
    ensures c.length == |data|
    ensures c.crc == Crc32(Bytes(t) + data)
    ensures |data| <= MAX_LEN ==> Valid(c)
  {
    Chunk(|data|, t, data, Crc32(CrcInput(t, data)))
  }

  /** The frame bytes of a chunk, fields in wire order. */
  function AsBytes(c: Chunk): (r: seq<byte>)
    ensures |r| == FRAME_OVERHEAD + |c.data|
    ensures r[..4] == ToBE32(c.length)
    ensures r[4..8] == Bytes(c.chunkType)
    ensures r[8..8 + |c.data|] == c.data
    ensures r[8 + |c.data|..] == ToBE32(c.crc)
  {
    ToBE32(c.length) + Bytes(c.chunkType) + c.data + ToBE32(c.crc)
  }

  /** The data read as UTF-8 text; fails when the data is not well-formed UTF-8. */
  function DataAsString(c: Chunk): (r: Option<string>)
    ensures (forall i | 0 <= i < |c.data| :: c.data[i] < 0x80) ==>
              r.Some? && |r.value| == |c.data| && forall i | 0 <= i < |c.data| :: r.value[i] as int == c.data[i]
  {
    Utf8.Decode(c.data)
  }

  /** The length a frame declares in its first four bytes. */
  function DeclaredLength(bytes: seq<byte>): u32
    requires |bytes| >= 4
  {
    FromBE32(bytes[..4])
  }

  /** Parses one frame from the head of `bytes`; bytes after the CRC field are
      ignored. The checks run in the order the fields are read: an empty input,
      a short length field, a declared length over `MAX_LEN`, a short type,
      data or CRC field, and finally a stored CRC that is not the checksum of
      the type and data read. */
  function Parse(bytes: seq<byte>): (r: Result<Chunk>)
    ensures |bytes| == 0 ==> r == Err(Empty)
    ensures 0 < |bytes| < 4 ==> r == Err(Truncated)
    ensures |bytes| >= 4 && DeclaredLength(bytes) > MAX_LEN ==> r == Err(TooLong)
    ensures (|bytes| >= 4 && DeclaredLength(bytes) <= MAX_LEN
             && |bytes| < FRAME_OVERHEAD + DeclaredLength(bytes)) ==> r == Err(Truncated)
    ensures r.Ok? ==> Valid(r.value)
  {
    if |bytes| == 0 then Err(Empty)
    // A short read of a field surfaces as the reader's error.
    else if |bytes| < 4 then Err(Truncated)
    else
      var length := DeclaredLength(bytes);
      if length > MAX_LEN then Err(TooLong)
      else if |bytes| < 8 then Err(Truncated)
      else
        // The type constructor cannot fail on four bytes (see `TryFromBytes`),
        // so its error is passed on but never arises.
        match TryFromBytes(bytes[4..8])
        case Err(e) => Err(e)
        case Ok(chunkType) =>
          var n := length;
          if |bytes| < 8 + n then Err(Truncated)
          // The source's later comparison of the data length with `length` cannot
          // fail once all `length` bytes were read, so it has no counterpart here.
          else
            var data := bytes[8..8 + n];
            if |bytes| < 12 + n then Err(Truncated)
            else
              var received := FromBE32(bytes[8 + n..12 + n]);
              var expected := Crc32(CrcInput(chunkType, data));
              if expected != received then Err(CrcMismatch(expected, received))
              else Ok(Chunk(length, chunkType, data, expected))
  }

  /** Parsing succeeds exactly when the head of `bytes` is a complete frame of
      length at most `MAX_LEN` whose stored CRC matches its type and data; a
      complete frame with a wrong CRC reports both values. */
  lemma ParseOutcome(bytes: seq<byte>)
    requires |bytes| >= 4 && DeclaredLength(bytes) <= MAX_LEN
    requires |bytes| >= FRAME_OVERHEAD + DeclaredLength(bytes)
    ensures var n := DeclaredLength(bytes);
            var expected := Crc32(bytes[4..8 + n]);
            var received := FromBE32(bytes[8 + n..12 + n]);
            Parse(bytes) == if expected == received
                            then Ok(Chunk(DeclaredLength(bytes), ChunkType(bytes[4..8]), bytes[8..8 + n], expected))
                            else Err(CrcMismatch(expected, received))
  {
    var n := DeclaredLength(bytes);
    assert bytes[4..8] + bytes[8..8 + n] == bytes[4..8 + n];
  }

  /** Bytes whose fields hold the fields of `c` begin with the frame of `c`. */
  lemma FrameFromFields(c: Chunk, bytes: seq<byte>)
    requires |bytes| >= FRAME_OVERHEAD + |c.data|
    requires bytes[..4] == ToBE32(c.length) && bytes[4..8] == Bytes(c.chunkType)
    requires bytes[8..8 + |c.data|] == c.data && bytes[8 + |c.data|..12 + |c.data|] == ToBE32(c.crc)
    ensures AsBytes(c) == bytes[..FRAME_OVERHEAD + |c.data|]
  {
    var n := |c.data|;
    assert bytes[..12 + n] == bytes[..4] + bytes[4..8] + bytes[8..8 + n] + bytes[8 + n..12 + n];
  }

  /** A parsed chunk is the chunk `New` builds from its type and data, and its
      frame is exactly the prefix of the input that was consumed. */
  lemma ParsedIsNew(bytes: seq<byte>)
    requires Parse(bytes).Ok?
    ensures var c := Parse(bytes).value;
            && c == New(c.chunkType, c.data)
            && |bytes| >= FRAME_OVERHEAD + |c.data|
            && AsBytes(c) == bytes[..FRAME_OVERHEAD + |c.data|]
  {
    var c := Parse(bytes).value;
    var n := DeclaredLength(bytes);
    assert c.length == n && c.data == bytes[8..8 + n];
    assert Bytes(c.chunkType) == bytes[4..8];
    assert c.crc == FromBE32(bytes[8 + n..12 + n]);
    EncodeDecode(bytes[..4]);
    EncodeDecode(bytes[8 + n..12 + n]);
    FrameFromFields(c, bytes);
  }

  /** Round trip: the frame of a valid chunk parses back to that chunk, whatever
      bytes follow it. */
  lemma RoundTrip(c: Chunk, rest: seq<byte>)
    requires Valid(c)
    ensures Parse(AsBytes(c) + rest) == Ok(c)
  {
    var bytes := AsBytes(c) + rest;
    var n := |c.data|;
    assert bytes[..4] == ToBE32(c.length);
    DecodeEncode(c.length);
    assert bytes[4..8] == Bytes(c.chunkType);
    assert bytes[8..8 + n] == c.data;
    assert bytes[8 + n..12 + n] == ToBE32(c.crc);
    DecodeEncode(c.crc);
  }

  /** Round trip for the constructor: a chunk built from data of at most
      `MAX_LEN` bytes survives serialisation and parsing unchanged. */
  lemma NewRoundTrip(t: ChunkType, data: seq<byte>, rest: seq<byte>)
    requires |data| <= MAX_LEN
    ensures Parse(AsBytes(New(t, data)) + rest) == Ok(New(t, data))
  {
    RoundTrip(New(t, data), rest);
  }

  /** Tamper detection: a frame whose stored CRC differs from the chunk's true
      checksum is rejected with both values, whatever bytes follow it. */
  lemma WrongCrcRejected(c: Chunk, storedCrc: u32, rest: seq<byte>)
    requires Valid(c) && storedCrc != c.crc
    ensures Parse(AsBytes(c.(crc := storedCrc)) + rest) == Err(CrcMismatch(c.crc, storedCrc))
  {
    var bytes := AsBytes(c.(crc := storedCrc)) + rest;
    var n := |c.data|;
    assert bytes[..4] == ToBE32(c.length);
    DecodeEncode(c.length);
    assert bytes[4..8] == Bytes(c.chunkType);
    assert bytes[8..8 + n] == c.data;
    assert bytes[8 + n..12 + n] == ToBE32(storedCrc);
    DecodeEncode(storedCrc);
  }
}
