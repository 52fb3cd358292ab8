/** The concrete cases the repository's tests exercise, stated over the model.
    Text is written as its ASCII bytes, with the text in a comment. */
module Scenarios {
  import opened Utils
  import opened Results
  import opened ChunkTypes
  import opened Chunks
  import opened PngContainer
  import Utf8

  const RuSt: seq<byte> := [82, 117, 83, 116]   // "RuSt"
  const ruSt: seq<byte> := [114, 117, 83, 116]  // "ruSt"
  const RUSt: seq<byte> := [82, 85, 83, 116]    // "RUSt"
  const Rust: seq<byte> := [82, 117, 115, 116]  // "Rust"
  const RuST: seq<byte> := [82, 117, 83, 84]    // "RuST"
  const Ru1t: seq<byte> := [82, 117, 49, 116]   // "Ru1t"
  const FrSt: seq<byte> := [70, 114, 83, 116]   // "FrSt"
  const miDl: seq<byte> := [109, 105, 68, 108]  // "miDl"
  const LASt: seq<byte> := [76, 65, 83, 116]    // "LASt"
  const TeSt: seq<byte> := [84, 101, 83, 116]   // "TeSt"

  // "This is where your secret message will be!"
  const SecretMessage: seq<byte> :=
    [84, 104, 105, 115, 32, 105, 115, 32, 119, 104, 101, 114, 101, 32, 121, 111, 117, 114, 32, 115, 101,
     99, 114, 101, 116, 32, 109, 101, 115, 115, 97, 103, 101, 32, 119, 105, 108, 108, 32, 98, 101, 33]
  // "I am the first chunk", "I am another chunk", "I am the last chunk"
  const FirstText: seq<byte> :=
    [73, 32, 97, 109, 32, 116, 104, 101, 32, 102, 105, 114, 115, 116, 32, 99, 104, 117, 110, 107]
  const AnotherText: seq<byte> :=
    [73, 32, 97, 109, 32, 97, 110, 111, 116, 104, 101, 114, 32, 99, 104, 117, 110, 107]
  const LastText: seq<byte> :=
    [73, 32, 97, 109, 32, 116, 104, 101, 32, 108, 97, 115, 116, 32, 99, 104, 117, 110, 107]
  const MessageText: seq<byte> := [77, 101, 115, 115, 97, 103, 101]   // "Message"
  const HelloText: seq<byte> := [104, 101, 108, 108, 111]             // "hello"

  function TypeOf(s: seq<byte>): ChunkType
    requires |s| <= 4
  {
    FromStr(s).value
  }

  /** Text and byte-array construction agree on "RuSt", and the bytes come back unchanged. */
  lemma RuStConstruction()
    ensures FromStr(RuSt) == TryFromBytes([82, 117, 83, 116])
    ensures Bytes(TypeOf(RuSt)) == [82, 117, 83, 116]
  {
    ConstructorsAgree(RuSt, [82, 117, 83, 116]);
    assert RuSt + [] == [82, 117, 83, 116];
  }

  /** The property bits of the test types. */
  lemma PropertyBitCases()
    ensures IsCritical(TypeOf(RuSt)) && !IsCritical(TypeOf(ruSt))
    ensures IsPublic(TypeOf(RUSt)) && !IsPublic(TypeOf(RuSt))
    ensures IsReservedBitValid(TypeOf(RuSt)) && !IsReservedBitValid(TypeOf(Rust))
    ensures IsSafeToCopy(TypeOf(RuSt)) && !IsSafeToCopy(TypeOf(RuST))
  {
  }

  /** "RuSt" is valid; "Rust" has a lowercase reserved byte and "Ru1t" a digit. */
  lemma ValidityCases()
    ensures IsValid(TypeOf(RuSt))
    ensures !IsValid(TypeOf(Rust))
    ensures !IsValid(TypeOf(Ru1t))
  {
    assert !IsValidByte(TypeOf(Ru1t).code[2]);
  }

  /** "RuSt" displays as "RuSt". */
  lemma DisplayCase()
    ensures Display(TypeOf(RuSt)) == "RuSt"
  {
    assert TypeOf(RuSt).code == RuSt;
    Utf8.AsciiDecodes(RuSt, "RuSt");
  }

  /** A chunk built from the 42-byte test message declares length 42, and its
      frame with any other stored CRC is rejected, naming both CRC values. */
  lemma ChunkCases(storedCrc: u32)
    requires storedCrc != New(TypeOf(RuSt), SecretMessage).crc
    ensures New(TypeOf(RuSt), SecretMessage).length == 42
    ensures var c := New(TypeOf(RuSt), SecretMessage);
            Chunks.Parse(Chunks.AsBytes(c.(crc := storedCrc))) == Err(CrcMismatch(c.crc, storedCrc))
  {
    var c := New(TypeOf(RuSt), SecretMessage);
    WrongCrcRejected(c, storedCrc, []);
    assert Chunks.AsBytes(c.(crc := storedCrc)) + [] == Chunks.AsBytes(c.(crc := storedCrc));
  }

  function TestChunks(): seq<Chunk> {
    [New(TypeOf(FrSt), FirstText), New(TypeOf(miDl), AnotherText), New(TypeOf(LASt), LastText)]
  }

  /** The three-chunk test container serialises to 8 + 32 + 30 + 31 bytes and
      parses back to the same three chunks in order; its "FrSt" chunk is found. */
  lemma ContainerCases()
    ensures |PngContainer.AsBytes(FromChunks(TestChunks()))| == 101
    ensures PngContainer.Parse(PngContainer.AsBytes(FromChunks(TestChunks()))) == Ok(FromChunks(TestChunks()))
    ensures ChunkByType(FromChunks(TestChunks()), FrSt) == Some(TestChunks()[0])
  {
    var cs := TestChunks();
    assert Valid(cs[0]) && Valid(cs[1]) && Valid(cs[2]);
    PngContainer.RoundTrip(cs);
    assert cs[1..][1..] == cs[2..] && cs[2..][1..] == [];
    assert SerializedSize(cs[2..]) == 31;
    assert SerializedSize(cs[1..]) == 30 + 31;
    assert IsFirstMatch(cs, TypeOf(FrSt), 0);
  }

  /** Appending a "TeSt" chunk makes it findable; removing it again leaves none. */
  lemma AppendRemoveCases()
    ensures var c := New(TypeOf(TeSt), MessageText);
            var p := AppendChunk(FromChunks(TestChunks()), c);
            && ChunkByType(p, TeSt) == Some(c)
            && RemoveChunk(p, TeSt).1 == Ok(c)
            && ChunkByType(RemoveChunk(p, TeSt).0, TeSt) == None
  {
    var t := TypeOf(TeSt);
    var c := New(t, MessageText);
    var cs := TestChunks();
    assert t.code[0] == 84;
    assert cs[0].chunkType.code[0] == 70 && cs[1].chunkType.code[0] == 109 && cs[2].chunkType.code[0] == 76;
    assert forall j | 0 <= j < |cs| :: cs[j].chunkType != t;
    AppendThenRemove(FromChunks(cs), c, TeSt);
  }

  /** A wrong first byte in the signature, and a buffer holding only half a
      signature, are rejected. */
  lemma RejectionCases()
    ensures var bad := [13, 80, 78, 71, 13, 10, 26, 10];
            PngContainer.Parse(bad + ConcatBytes(TestChunks())) == Err(BadHeader(bad))
    ensures PngContainer.Parse([137, 80, 78, 71]) == Err(Truncated)
  {
    SignatureGate([13, 80, 78, 71, 13, 10, 26, 10], ConcatBytes(TestChunks()));
  }

  /** The text whose characters have the codes in `s`. */
  function AsciiText(s: seq<byte>): (r: string)
    ensures |r| == |s| && forall i | 0 <= i < |s| :: r[i] as int == s[i]
  {
    seq(|s|, i requires 0 <= i < |s| => s[i] as char)
  }

  lemma SecretMessageText()
    ensures AsciiText(SecretMessage) == "This is where your secret message will be!"
  {
  }

  /** The test chunk's data reads back as the secret message text. */
  lemma SecretMessageReadsBack(c: Chunk)
    requires c.data == SecretMessage
    ensures DataAsString(c) == Some("This is where your secret message will be!")
  {
    Utf8.AsciiDecodes(SecretMessage, AsciiText(SecretMessage));
    SecretMessageText();
  }

  /** A chunk carrying the bytes of "hello" reads back as the text "hello". */
  lemma HelloReadsBack(c: Chunk)
    requires c.data == HelloText
    ensures DataAsString(c) == Some("hello")
  {
    Utf8.AsciiDecodes(HelloText, "hello");
  }

  /** Hiding "hello" under "ruSt" in an empty container and reading it back. */
  lemma HideAndReveal()
    ensures var input := PngContainer.AsBytes(FromChunks([]));
            var output := PngContainer.AsBytes(AppendChunk(PngContainer.Parse(input).value, New(TypeOf(ruSt), HelloText)));
            && PngContainer.Parse(output).Ok?
            && var found := ChunkByType(PngContainer.Parse(output).value, ruSt);
               found.Some? && DataAsString(found.value) == Some("hello")
  {
    var input := PngContainer.AsBytes(FromChunks([]));
    PngContainer.RoundTrip([]);
    assert PngContainer.Parse(input) == Ok(FromChunks([]));
    assert ChunkByType(FromChunks([]), ruSt) == None;
    EncodeThenDecode(input, ruSt, HelloText);
    HelloReadsBack(New(TypeOf(ruSt), HelloText));
  }
}
