# imagico PNG chunk codec, modelled in Dafny

imagico hides text messages inside PNG files. It decodes a file into its eight-byte signature followed by a list of chunks, appends, finds or removes chunks by their four-letter type, and encodes the result back into bytes. This project models that codec as pure functions over immutable values:

- **`ChunkTypes`** (`chunk_type.dfy`) models the four-byte chunk type and its property bits. Each property lives in bit 5 (the ASCII case bit) of one byte: ancillary, private, reserved and safe-to-copy. The module also models validity, the two constructors (from an array and from text) and display.
- **`Chunks`** (`chunk.dfy`) models one chunk. A frame is a big-endian length, the type, the data, and a big-endian CRC-32 computed over type and data. The module covers construction, serialisation, parsing with all its error cases, and reading the data as UTF-8 text.
- **`PngContainer`** (`png.dfy`) models the container. It checks the signature, then runs the loop that reads frames until fewer than four bytes remain. It also covers serialisation, first-match lookup, first-match removal and appending.
- **`Utils`, `BigEndian`, `Utf8`, `Results`** hold what these modules share:
  - the letter test;
  - the bitwise CRC-32/ISO-HDLC shift register, with reflected polynomial 0xEDB88320 and initial value and final xor 0xFFFFFFFF (section 3.4 of the PNG 1.2 specification);
  - 32-bit big-endian encoding;
  - UTF-8 decoding;
  - the error and result types.
- **`Scenarios`** (`scenarios.dfy`) states the repository's unit tests as lemmas about concrete byte strings.

Byte arrays and vectors become `seq<byte>`. Rust's `&str` arguments become their UTF-8 bytes. The crate's error type, which carries message strings, becomes the `Error` datatype with one constructor per failure kind. A mutating method (`append_chunk`, `remove_chunk`) becomes a function that returns the new container.

## Model

| member | source | states |
|---|---|---|
| Utils.IsValidByte | src/utils.rs:3-6 | A byte is valid exactly when it is an ASCII letter, A–Z or a–z. Equivalently, setting its case bit yields a lowercase letter. No byte of 0x80 or above is valid. |
| BigEndian.DecodeEncode | src/chunk.rs:98-100 | Reading four big-endian bytes back gives the same 32-bit value that was written. |
| BigEndian.EncodeDecode | src/chunk.rs:117-118 | Every four-byte sequence is the big-endian encoding of the value it decodes to, so no field bytes are lost. |
| ChunkTypes.IsCritical | src/png/chunk_type.rs:34-38 | A type is critical exactly when its first byte is a letter with the case bit clear (uppercase). |
| ChunkTypes.IsPublic | src/png/chunk_type.rs:40-44 | A type is public exactly when its second byte is an uppercase letter. |
| ChunkTypes.IsReservedBitValid | src/png/chunk_type.rs:46-50 | The reserved bit is valid exactly when the third byte is an uppercase letter. |
| ChunkTypes.IsSafeToCopy | src/png/chunk_type.rs:52-56 | A type is safe to copy exactly when its fourth byte is a letter with the case bit set (lowercase). |
| ChunkTypes.IsValid | src/png/chunk_type.rs:18-32 | A type is valid exactly when all four bytes are letters and the third byte is uppercase. |
| ChunkTypes.TryFromBytes | src/png/chunk_type.rs:59-71 | Building a type from a four-byte array always succeeds, because the emptiness guard can never fire, and the type holds exactly those bytes. |
| ChunkTypes.FromStr | src/png/chunk_type.rs:73-83 | Parsing text always succeeds. Byte i of the type is byte i of the text, or zero past the text's end. |
| ChunkTypes.Display | src/png/chunk_type.rs:85-93 | When the four bytes are ASCII, the display text is those four characters, in order. |
| ChunkTypes.FromStrOfBytes | src/png/chunk_type.rs:12-16 | Both constructors give back the original type when fed its own bytes. |
| ChunkTypes.ConstructorsAgree | src/png/chunk_type.rs:110-115 | Parsing a text and building from an array give the same type exactly when the array is the text zero-padded to four bytes. |
| Chunks.New | src/chunk.rs:24-39 | The new chunk keeps the given type and data. Its length is the data's length and its CRC is the CRC-32 of the type bytes followed by the data. With at most MAX_LEN bytes of data the chunk is well formed. |
| Chunks.AsBytes | src/chunk.rs:68-84 | The frame is 12 bytes longer than the data. In order it holds the big-endian length, the type, the data and the big-endian CRC. |
| Chunks.DataAsString | src/chunk.rs:61-66 | Data made only of ASCII bytes reads back as the text with those characters. |
| Chunks.Parse | src/chunk.rs:87-141 | Each error is stated by its trigger. Empty input gives Empty. A short length field or a short frame gives Truncated. A declared length over 2^31-1 gives TooLong. Every chunk the parser accepts is well formed, with length = data size ≤ MAX_LEN and a matching CRC. |
| Chunks.ParseOutcome | src/chunk.rs:116-140 | Once length and size checks pass, the parser fails with CrcMismatch(expected, received) exactly when the stored CRC differs from the CRC of type and data. Otherwise it returns the chunk those fields describe. |
| Chunks.ParsedIsNew | src/chunk.rs:135-140 | A parsed chunk equals the one `new` builds from its type and data. Its serialisation is exactly the prefix of the input the parser read. |
| Chunks.RoundTrip | src/chunk.rs:87-141 | Parsing the frame of any well-formed chunk, followed by any bytes, gives back that chunk. |
| Chunks.NewRoundTrip | src/chunk.rs:24-39 | A chunk built by `new` with at most MAX_LEN bytes of data survives serialisation and parsing unchanged. |
| Chunks.WrongCrcRejected | src/chunk.rs:126-133 | A frame whose stored CRC was altered is rejected. The error carries the recomputed CRC and the stored one. |
| Utf8.AsciiDecodes | src/chunk.rs:64-66 | UTF-8 decoding of ASCII bytes yields the characters with those code points. |
| PngContainer.FromChunks | src/png/mod.rs:26-32 | The container has the standard signature and exactly the given chunks. |
| PngContainer.AppendChunk | src/png/mod.rs:34-37 | The chunk is added after all existing chunks. The signature and the other chunks are unchanged. |
| PngContainer.Position | src/png/mod.rs:43-46 | The result is the index of the first chunk of the type. When there is none, no chunk has that type. |
| PngContainer.ChunkByType | src/png/mod.rs:66-73 | Lookup returns nothing exactly when no chunk has the named type. Otherwise it returns the first chunk of that type. |
| PngContainer.RemoveChunk | src/png/mod.rs:39-54 | Removal deletes the first chunk of the named type and returns it. The other chunks keep their order. With no such chunk the container is unchanged and the error is NoMatch. |
| PngContainer.ConcatBytes | src/png/mod.rs:77-82 | The concatenated frames are 12 bytes per chunk plus the data lengths. |
| PngContainer.AsBytes | src/png/mod.rs:75-84 | The file bytes start with the signature and have the signature's length plus the frames' total size. |
| PngContainer.FrameSizeAsWritten | src/png/mod.rs:112 | The source's 32-bit frame-size sum equals the true size exactly for lengths below 2^32-8. For larger lengths it wraps to less than 8. |
| PngContainer.FrameSizeWraps | src/png/mod.rs:112 | For the length field FF FF FF FF the 32-bit sum is 7, but the true frame size is 2^32+7. |
| PngContainer.ParseChunks | src/png/mod.rs:103-123 | Every chunk list the frame loop returns holds only well-formed chunks. |
| PngContainer.ParseChunksStops | src/png/mod.rs:111-114 | Fewer than four remaining bytes end the loop with no further chunks. A frame shorter than its declared length aborts the parse with Truncated. |
| PngContainer.Parse | src/png/mod.rs:90-126 | Fewer than 8 bytes gives Truncated. A wrong signature gives BadHeader carrying the 8 bytes read. A success has the standard signature and only well-formed chunks. |
| PngContainer.ParseChunksOneFrame | src/png/mod.rs:111-122 | One iteration of the loop consumes exactly one chunk's frame, yields that chunk, and continues on the bytes after it. |
| PngContainer.ParseChunksAfterFrames | src/png/mod.rs:111-123 | The loop over the frames of well-formed chunks followed by any bytes yields those chunks in order, in front of whatever the rest parses to. |
| PngContainer.RoundTrip | src/png/mod.rs:90-126 | Decoding the encoding of a container of well-formed chunks gives back the same container. |
| PngContainer.RoundTripWithTrailingBytes | src/png/mod.rs:111 | One to three trailing bytes after the last frame are dropped, and the parse still succeeds with the same chunks. |
| PngContainer.ChunkErrorAborts | src/png/mod.rs:121 | A bad frame after any number of good ones aborts the whole parse with that frame's error. |
| PngContainer.ParseChunksConsumes | src/png/mod.rs:111-123 | A successful loop consumed the input as the concatenation of the chunks' frames, plus fewer than 4 leftover bytes. |
| PngContainer.ParsedSerialisesToInput | src/png/mod.rs:274-279 | Re-encoding a parsed file reproduces the input, except for at most 3 dropped trailing bytes. |
| PngContainer.SignatureGate | src/png/mod.rs:96-101 | Any non-standard 8-byte signature is rejected with BadHeader carrying it, whatever follows. |
| PngContainer.OversizedLengthRejected | src/png/mod.rs:111-121 | A declared length above 2^31-1 ends the parse in an error, Truncated or TooLong, never in a chunk. |
| PngContainer.RemoveTakesOne | src/png/mod.rs:39-54 | A successful removal lowers the count of the removed type by one. The count of every other type is unchanged. |
| PngContainer.RemoveOnlyOccurrence | src/png/mod.rs:258-265 | Removing the only chunk of a type succeeds, and afterwards lookup finds none. |
| PngContainer.AppendThenRemove | src/png/mod.rs:34-54 | A chunk appended under a type not yet present is found by lookup. Removing it restores the original container exactly. |
| PngContainer.EditsPreserveValidity | src/png/mod.rs:34-54 | Appending a well-formed chunk and removing any chunk both keep every chunk well formed. |
| PngContainer.EncodeThenDecode | src/args/command.rs:10-31 | Hiding a message in a parsed file under a type it lacks, then decoding the written bytes, finds a chunk with that message. |
| Scenarios.RuStConstruction | src/png/chunk_type.rs:103-115 | "RuSt" parsed from text equals the type built from [82, 117, 83, 116], and its bytes are those four. |
| Scenarios.PropertyBitCases | src/png/chunk_type.rs:118-163 | Each of the four property predicates is true and false on the repository's test types. |
| Scenarios.ValidityCases | src/png/chunk_type.rs:166-179 | "RuSt" is valid. "Rust" (lowercase reserved byte) and "Ru1t" (a digit) are not. |
| Scenarios.DisplayCase | src/png/chunk_type.rs:182-185 | The type "RuSt" displays as "RuSt". |
| Scenarios.ChunkCases | src/chunk.rs:244-262 | The 42-byte test message gives a chunk of length 42. Storing any other CRC makes the parse fail with CrcMismatch. |
| Scenarios.ContainerCases | src/png/mod.rs:177-192 | The three test chunks encode to 101 bytes and decode to the same container, and "FrSt" finds the first one. |
| Scenarios.AppendRemoveCases | src/png/mod.rs:250-265 | Appending a "TeSt" chunk makes it findable. Removing it returns it and leaves none behind. |
| Scenarios.RejectionCases | src/png/mod.rs:195-210 | A signature with a wrong first byte is rejected with BadHeader. Half a signature is rejected as truncated. |
| Scenarios.SecretMessageReadsBack | src/chunk.rs:203-208 | The test chunk's 42 data bytes read back as the text "This is where your secret message will be!". |
| Scenarios.HideAndReveal | src/png/mod.rs:66-73 | After "hello" is appended under "ruSt" to an empty file and the result is re-parsed, lookup of "ruSt" finds a chunk whose data, read as UTF-8 (src/chunk.rs:61-66), is "hello". |
| Utils.RegisterOfPrefix | src/utils.rs:8-10 | The checksum is computed as a stream: the CRC register after n bytes depends only on those n bytes, whatever follows them. |
| ChunkTypes.Bytes | src/png/chunk_type.rs:14-16 | The raw four bytes of a type rebuild exactly that type. |
| BigEndian.ToBE32 | src/chunk.rs:76-81 | A 32-bit value becomes four bytes, most significant first: the first byte is the value divided by 2^24, the last is the value modulo 256. |
| BigEndian.FromBE32 | src/chunk.rs:100 | Four bytes read most significant first: the first byte is the top 8 bits of the result and the last byte its low 8 bits. |
| Utf8.Decode | src/chunk.rs:65 | Bytes that are all ASCII decode successfully, to the text with the same characters in the same order. |

## Left out

- The `Display` implementations of `Chunk` and `Png` (src/chunk.rs:144-154, src/png/mod.rs:129-137) are left out. They only format text for printing.
- The plain accessors (`length`, `chunk_type`, `data`, `crc`, `header`, `chunks`) are left out. They are datatype fields here.
- `BufReader` and `read_exact` are not modelled as such. A short read of any field is the `Truncated` error, and I/O error values are not modelled.
- The error type's message strings (src/error.rs) are left out. Each failure kind is one constructor of `Error`, and the CRC mismatch keeps both values.
- Command-line parsing, file reading and writing, and `main` (src/args, src/main.rs) are left out. Only the byte transformations of the encode and decode commands are modelled, as `PngContainer.EncodeThenDecode`. The decode command (src/args/command.rs:25-28) prints the found chunk through its `Display` summary, not its data as text; the model states instead what `Chunks.DataAsString` reads back from the found chunk.
- The test that reads an image from disk (src/png/mod.rs:268-279) is left out, because that file is not part of this model.
- The chunk's test CRC values 2882656334 and 2882656333 (src/chunk.rs:187, src/chunk.rs:248) are not proved. `Utils.Crc32` is a bit-serial definition of CRC-32/ISO-HDLC, and the proofs use only that it is a function of its input.
- Utils.Crc32: no contract beyond its definition and the streaming property `Utils.RegisterOfPrefix`. The `crc` crate's table-driven implementation is not part of this model.
- Chunks.WrongCrcRejected: only a changed stored CRC is proved to be rejected. Rejection of a frame whose type or data bytes were changed is not proved, since the proofs use only that `Utils.Crc32` is a function of its input.
- The unreachable `data.len() != length` check (src/chunk.rs:112-114) has no error constructor. The data is read into a buffer of exactly `length` bytes, so the check never fires.
- The `Chunk` and `Png` values carry no invariant of their own. A parsed chunk is well formed (`Chunks.Valid`), but `Chunks.New` and the container operations accept any values, as the source does.
- ChunkTypes.FromStr: requires at most four bytes of text. The source indexes a four-byte buffer and panics on longer text; it does not truncate.
- ChunkTypes.Display: the contract covers codes whose four bytes are ASCII. For other codes the model decodes UTF-8 or shows the source's fixed error text, but no property is stated.
- Chunks.DataAsString: the contract covers all-ASCII data. Data that is not valid UTF-8 yields `None` rather than the source's `StrFromUtf8Error` kind (src/chunk.rs:65, src/error.rs:38-42); `Results.Error` has no decoding kind.
- Utf8.Decode: follows the table of well-formed byte sequences in section 4 of RFC 3629, but no lemma states what it yields for multi-byte sequences.
- Chunks.New: requires fewer than 2^32 bytes of data, because the source's `as u32` cast would truncate longer lengths.
- PngContainer.ParseChunks: the loop ends successfully when one to three bytes remain after the last frame. This follows the code, which stops the loop on any failed length read; a short length field could instead be read as an error.
- PngContainer.ParseChunks: the frame size is computed exactly rather than in 32-bit arithmetic. See Findings.

## Findings

| source | as written | input that shows it | evidently intended | confidence | as-written member | corrected member |
|---|---|---|---|---|---|---|
| src/png/mod.rs:112 | `4 + u32::from_be_bytes(data_len_buf) + 4` is summed in `u32`. Lengths of 2^32-8 or more overflow: a debug build panics. A release build wraps to a size under 8, reads that many bytes, and then still ends in an error, since `Chunk::try_from` rejects the length above MAX_LEN (src/chunk.rs:101-103) or the read fails first; the observable defect is the debug-build panic. For FF FF FF FF followed by at least 7 bytes, the corrected model returns `Truncated` where a release build returns the too-long error. | The standard signature followed by FF FF FF FF. | The frame size is computed without overflow, and an oversized length is rejected with an error. | not executed | PngContainer.FrameSizeWraps | PngContainer.OversizedLengthRejected |
