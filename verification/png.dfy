/** The PNG container: the fixed eight-byte signature (section 3.1 of the PNG 1.2
    specification) followed by an ordered list of chunks, with parsing,
    serialisation, appending, first-match lookup and first-match removal. */
module PngContainer {
  import opened Utils
  import opened Results
  import opened BigEndian
  import opened ChunkTypes
  import opened Chunks

  /** An eight-byte file signature. */
  type Signature = s: seq<byte> | |s| == 8 witness [0, 0, 0, 0, 0, 0, 0, 0]

  /** The first eight bytes of every PNG file. */
  const STANDARD_HEADER: Signature := [137, 80, 78, 71, 13, 10, 26, 10]

  /** A container: the signature and the chunks in file order. */
  datatype Png = Png(header: Signature, chunks: seq<Chunk>)

  predicate AllValid(cs: seq<Chunk>) {
    forall i | 0 <= i < |cs| :: Valid(cs[i])
  }

  /** Builds a container from chunks, with the standard signature. */
  function FromChunks(cs: seq<Chunk>): (p: Png)
    ensures p.header == STANDARD_HEADER && p.chunks == cs
  {
    Png(STANDARD_HEADER, cs)
  }

  /** Adds a chunk after all the others; nothing else changes. */
  function AppendChunk(p: Png, c: Chunk): (r: Png)
    ensures r.header == p.header
    ensures r.chunks == p.chunks + [c]
  {
    p.(chunks := p.chunks + [c])
  }

  /** Index `i` holds the first chunk of type `t` in `cs`. */
  predicate IsFirstMatch(cs: seq<Chunk>, t: ChunkType, i: int) {
    && 0 <= i < |cs|
    && cs[i].chunkType == t
    && forall j | 0 <= j < i :: cs[j].chunkType != t
  }

  /** The index of the first chunk of type `t`, if there is one. */
  function Position(cs: seq<Chunk>, t: ChunkType): (r: Option<nat>)
    ensures r.Some? ==> IsFirstMatch(cs, t, r.value)
    ensures r.None? ==> forall j | 0 <= j < |cs| :: cs[j].chunkType != t
    decreases |cs|
  {
    if |cs| == 0 then None
    else if cs[0].chunkType == t then Some(0)
    else
      match Position(cs[1..], t)
      case None => None
      case Some(i) => Some(i + 1)
  }

  /** The first chunk whose type is the one `s` names, or nothing when no chunk
      has that type. `s` is the text of the type as UTF-8 bytes. */
  function ChunkByType(p: Png, s: seq<byte>): (r: Option<Chunk>)
    requires |s| <= 4
    ensures var t := FromStr(s).value;
            && (r.None? <==> forall j | 0 <= j < |p.chunks| :: p.chunks[j].chunkType != t)
            && forall i | IsFirstMatch(p.chunks, t, i) :: r == Some(p.chunks[i])
  {
    match FromStr(s)
    case Err(_) => None
    case Ok(t) =>
      match Position(p.chunks, t)
      case None => None
      case Some(i) => Some(p.chunks[i])
  }

  /** Removes the first chunk whose type is the one `s` names and returns it
      with the updated container. The remaining chunks keep their order. With
      no such chunk the container is returned unchanged with `NoMatch`. */
  function RemoveChunk(p: Png, s: seq<byte>): (r: (Png, Result<Chunk>))
    requires |s| <= 4
    ensures var t := FromStr(s).value;
            && ((forall j | 0 <= j < |p.chunks| :: p.chunks[j].chunkType != t) ==> r == (p, Err(NoMatch)))
            && forall i | IsFirstMatch(p.chunks, t, i) ::
                 r == (Png(p.header, p.chunks[..i] + p.chunks[i + 1..]), Ok(p.chunks[i]))
  {
    match FromStr(s)
    case Err(e) => (p, Err(e))
    case Ok(t) =>
      match Position(p.chunks, t)
      case None => (p, Err(NoMatch))
      case Some(i) => (p.(chunks := p.chunks[..i] + p.chunks[i + 1..]), Ok(p.chunks[i]))
  }

  /** The number of bytes the frames of `cs` occupy: twelve per chunk plus its data. */
  function SerializedSize(cs: seq<Chunk>): nat
    decreases |cs|
  {
    if |cs| == 0 then 0 else FRAME_OVERHEAD + |cs[0].data| + SerializedSize(cs[1..])
  }

  /** The frames of `cs`, one after another in list order. */
  function ConcatBytes(cs: seq<Chunk>): (r: seq<byte>)
    ensures |r| == SerializedSize(cs)
    decreases |cs|
  {
    if |cs| == 0 then [] else Chunks.AsBytes(cs[0]) + ConcatBytes(cs[1..])
  }

  /** The file bytes: the signature, then every chunk's frame in order. */
  function AsBytes(p: Png): (r: seq<byte>)
    ensures |r| == |p.header| + SerializedSize(p.chunks)
    ensures r[..|p.header|] == p.header
  {
    p.header + ConcatBytes(p.chunks)
  }

  /** The bytes that follow the length field of a frame declaring `length`
      bytes of data: type, data and CRC. The source computes this sum in 32-bit
      arithmetic, which overflows for lengths of 2^32 - 8 or more (see
      `FrameSizeAsWritten`); here it is computed exactly, and such lengths end
      in an error like any other length over `MAX_LEN` (see
      `OversizedLengthRejected`). */
  function FrameSize(length: u32): nat {
    4 + length + 4
  }

  /** The frame-size sum as the source writes it, in 32-bit arithmetic. */
  function FrameSizeAsWritten(length: u32): (r: u32)
    ensures r == FrameSize(length) <==> length < 0x1_0000_0000 - 8
    ensures length >= 0x1_0000_0000 - 8 ==> r < 8
  {
    (4 + length + 4) % 0x1_0000_0000
  }

  /** Parses the chunk frames that follow the signature. A complete read of a
      length field starts a frame; fewer than four remaining bytes end the loop
      successfully, dropping those bytes. A short frame, or any error from the
      chunk parser, aborts the whole parse. */
  function ParseChunks(rest: seq<byte>): (r: Result<seq<Chunk>>)
    ensures r.Ok? ==> AllValid(r.value)
    decreases |rest|
  {
    if |rest| < 4 then Ok([])
    else
      var frameSize := FrameSize(DeclaredLength(rest));
      if |rest| < 4 + frameSize then Err(Truncated)
      else
        match Chunks.Parse(rest[..4 + frameSize])
        case Err(e) => Err(e)
        case Ok(c) =>
          match ParseChunks(rest[4 + frameSize..])
          case Err(e) => Err(e)
          case Ok(cs) =>
            AllValidCons(c, cs);
            Ok([c] + cs)
  }

  lemma AllValidCons(c: Chunk, cs: seq<Chunk>)
    requires Valid(c) && AllValid(cs)
    ensures AllValid([c] + cs)
  {
    assert forall i | 1 <= i < |cs| + 1 :: ([c] + cs)[i] == cs[i - 1];
  }

  /** The loop stops successfully when fewer than four bytes remain, and a
      frame shorter than its declared length aborts it as truncated. */
  lemma ParseChunksStops(rest: seq<byte>)
    ensures |rest| < 4 ==> ParseChunks(rest) == Ok([])
    ensures |rest| >= 4 && |rest| < 4 + FrameSize(DeclaredLength(rest)) ==> ParseChunks(rest) == Err(Truncated)
  {
  }

  /** Parses a whole file: the signature must be present and standard, then the
      chunk frames follow. */
  function Parse(bytes: seq<byte>): (r: Result<Png>)
    ensures |bytes| < 8 ==> r == Err(Truncated)
    ensures |bytes| >= 8 && bytes[..8] != STANDARD_HEADER ==> r == Err(BadHeader(bytes[..8]))
    ensures r.Ok? ==> r.value.header == STANDARD_HEADER && AllValid(r.value.chunks)
  {
    if |bytes| < 8 then Err(Truncated)
    else if bytes[..8] != STANDARD_HEADER then Err(BadHeader(bytes[..8]))
    else
      match ParseChunks(bytes[8..])
      case Err(e) => Err(e)
      case Ok(cs) => Ok(FromChunks(cs))
  }

  /** Chunks `cs` put in front of a parse outcome: the outcome of parsing their
      frames followed by bytes that parse to `r`. */
  function PrependChunks(cs: seq<Chunk>, r: Result<seq<Chunk>>): Result<seq<Chunk>> {
    match r
    case Ok(ts) => Ok(cs + ts)
    case Err(e) => Err(e)
  }

  /** The frame of one valid chunk parses to that chunk, and parsing carries on
      with the bytes after it. */
  lemma ParseChunksOneFrame(c: Chunk, rest: seq<byte>)
    requires Valid(c)
    ensures ParseChunks(Chunks.AsBytes(c) + rest) == PrependChunks([c], ParseChunks(rest))
  {
    var frame := Chunks.AsBytes(c);
    var bytes := frame + rest;
    var n := |c.data|;
    assert bytes[..4] == ToBE32(c.length);
    DecodeEncode(c.length);
    assert bytes[..4 + FrameSize(DeclaredLength(bytes))] == frame + [];
    Chunks.RoundTrip(c, []);
    assert bytes[4 + FrameSize(DeclaredLength(bytes))..] == rest;
  }

  /** Frames of valid chunks followed by any bytes parse to those chunks followed
      by whatever the remaining bytes parse to; an error in the remaining bytes
      aborts the whole parse with that error. */
  lemma {:induction false} ParseChunksAfterFrames(cs: seq<Chunk>, tail: seq<byte>)
    requires AllValid(cs)
    ensures ParseChunks(ConcatBytes(cs) + tail) == PrependChunks(cs, ParseChunks(tail))
    decreases |cs|
  {
    var r := ParseChunks(tail);
    if |cs| == 0 {
      assert ConcatBytes(cs) + tail == tail;
      assert r.Ok? ==> cs + r.value == r.value;
    } else {
      var c, more := cs[0], cs[1..];
      AllValidTail(cs);
      var later := ConcatBytes(more) + tail;
      assert ConcatBytes(cs) == Chunks.AsBytes(c) + ConcatBytes(more);
      assert ConcatBytes(cs) + tail == Chunks.AsBytes(c) + later;
      ParseChunksOneFrame(c, later);
      ParseChunksAfterFrames(more, tail);
      PrependChunksTwice([c], more, r);
      assert [c] + more == cs;
    }
  }

  lemma AllValidTail(cs: seq<Chunk>)
    requires AllValid(cs) && |cs| > 0
    ensures Valid(cs[0]) && AllValid(cs[1..])
  {
    assert forall i | 0 <= i < |cs| - 1 :: cs[1..][i] == cs[i + 1];
  }

  lemma PrependChunksTwice(a: seq<Chunk>, b: seq<Chunk>, r: Result<seq<Chunk>>)
    ensures PrependChunks(a, PrependChunks(b, r)) == PrependChunks(a + b, r)
  {
    if r.Ok? {
      assert a + (b + r.value) == (a + b) + r.value;
    }
  }

  /** Round trip: serialising a container of valid chunks and parsing the bytes
      gives the container back. */
  lemma RoundTrip(cs: seq<Chunk>)
    requires AllValid(cs)
    ensures Parse(AsBytes(FromChunks(cs))) == Ok(FromChunks(cs))
  {
    RoundTripWithTrailingBytes(cs, []);
    assert AsBytes(FromChunks(cs)) + [] == AsBytes(FromChunks(cs));
  }

  /** One, two or three stray bytes after the last frame are dropped without
      error: the container still parses back to the same chunks. */
  lemma RoundTripWithTrailingBytes(cs: seq<Chunk>, tail: seq<byte>)
    requires AllValid(cs) && |tail| < 4
    ensures Parse(AsBytes(FromChunks(cs)) + tail) == Ok(FromChunks(cs))
  {
    var frames := ConcatBytes(cs) + tail;
    assert AsBytes(FromChunks(cs)) + tail == STANDARD_HEADER + frames;
    assert ParseChunks(tail) == Ok([]);
    ParseChunksAfterFrames(cs, tail);
    assert cs + [] == cs;
    assert ParseChunks(frames) == Ok(cs);
    ParseAfterSignature(frames);
  }

  /** Behind the standard signature, the container parse is the chunk-list parse. */
  lemma ParseAfterSignature(frames: seq<byte>)
    ensures Parse(STANDARD_HEADER + frames) == match ParseChunks(frames)
                                               case Ok(cs) => Ok(FromChunks(cs))
                                               case Err(e) => Err(e)
  {
    var bytes := STANDARD_HEADER + frames;
    assert bytes[..8] == STANDARD_HEADER && bytes[8..] == frames;
  }

  /** A chunk error after any number of good frames aborts the whole parse
      with that error. */
  lemma ChunkErrorAborts(cs: seq<Chunk>, bad: seq<byte>)
    requires AllValid(cs) && ParseChunks(bad).Err?
    ensures Parse(STANDARD_HEADER + ConcatBytes(cs) + bad) == Err(ParseChunks(bad).error)
  {
    var frames := ConcatBytes(cs) + bad;
    var bytes := STANDARD_HEADER + ConcatBytes(cs) + bad;
    assert bytes == STANDARD_HEADER + frames;
    assert bytes[..8] == STANDARD_HEADER && bytes[8..] == frames;
    ParseChunksAfterFrames(cs, bad);
    assert ParseChunks(frames) == Err(ParseChunks(bad).error);
  }

  /** One step of a successful chunk-list parse: the first frame parses to a
      chunk whose frame is exactly those bytes, and the rest parses on its own. */
  lemma ParseChunksStep(rest: seq<byte>) returns (end: nat, c: Chunk, cs: seq<Chunk>)
    requires |rest| >= 4 && ParseChunks(rest).Ok?
    ensures end <= |rest| && Chunks.AsBytes(c) == rest[..end]
    ensures ParseChunks(rest[end..]) == Ok(cs)
    ensures ParseChunks(rest) == Ok([c] + cs)
  {
    var n := DeclaredLength(rest);
    end := 4 + FrameSize(n);
    assert end <= |rest|;
    var frame := rest[..end];
    assert frame[..4] == rest[..4];
    assert DeclaredLength(frame) == n;
    assert Chunks.Parse(frame).Ok?;
    c := Chunks.Parse(frame).value;
    cs := ParseChunks(rest[end..]).value;
    assert |c.data| == n;
    Chunks.ParsedIsNew(frame);
    assert frame[..FRAME_OVERHEAD + n] == frame;
  }

  /** Whatever the chunk parser accepts is the serialisation of the chunks it
      returns, and at most three bytes are left unread. */
  lemma {:induction false} ParseChunksConsumes(rest: seq<byte>)
    requires ParseChunks(rest).Ok?
    ensures var out := ConcatBytes(ParseChunks(rest).value);
            |out| <= |rest| && rest[..|out|] == out && |rest| - |out| < 4
    decreases |rest|
  {
    if |rest| >= 4 {
      var end, c, cs := ParseChunksStep(rest);
      ParseChunksConsumes(rest[end..]);
      ConcatBytesCons(c, cs);
      ConsumedPrefix(rest[..end], rest[end..], ConcatBytes(cs));
      assert rest == rest[..end] + rest[end..];
    }
  }

  lemma ConcatBytesCons(c: Chunk, cs: seq<Chunk>)
    ensures ConcatBytes([c] + cs) == Chunks.AsBytes(c) + ConcatBytes(cs)
  {
    assert ([c] + cs)[0] == c && ([c] + cs)[1..] == cs;
  }

  /** If `b` starts with `out` leaving fewer than four bytes over, then `a + b`
      starts with `a + out` leaving the same bytes over. */
  lemma ConsumedPrefix<T>(a: seq<T>, b: seq<T>, out: seq<T>)
    requires |out| <= |b| && b[..|out|] == out && |b| - |out| < 4
    ensures var all := a + out;
            |all| <= |a + b| && (a + b)[..|all|] == all && |a + b| - |all| < 4
  {
    assert (a + b)[..|a| + |out|] == a + b[..|out|];
  }

  /** A parsed container serialises to the bytes it was parsed from, except for
      at most three trailing bytes the parser dropped. */
  lemma ParsedSerialisesToInput(bytes: seq<byte>)
    requires Parse(bytes).Ok?
    ensures var out := AsBytes(Parse(bytes).value);
            |out| <= |bytes| && bytes[..|out|] == out && |bytes| - |out| < 4
  {
    ParseChunksConsumes(bytes[8..]);
    assert bytes == bytes[..8] + bytes[8..];
  }

  /** Signature gate: whatever follows, bytes that do not start with the standard
      signature are rejected. */
  lemma SignatureGate(header: seq<byte>, rest: seq<byte>)
    requires |header| == 8 && header != STANDARD_HEADER
    ensures Parse(header + rest) == Err(BadHeader(header))
  {
    assert (header + rest)[..8] == header;
  }

  /** A frame declaring more than `MAX_LEN` bytes of data ends the parse in an
      error, a truncation when the declared frame does not fit and the length
      error otherwise, including the lengths whose 32-bit frame-size sum
      overflows in the source. */
  lemma OversizedLengthRejected(rest: seq<byte>)
    requires |rest| >= 4 && DeclaredLength(rest) > MAX_LEN
    ensures ParseChunks(rest) == Err(Truncated) || ParseChunks(rest) == Err(TooLong)
  {
    var frameSize := FrameSize(DeclaredLength(rest));
    if |rest| >= 4 + frameSize {
      assert rest[..4 + frameSize][..4] == rest[..4];
    }
  }

  /** The 32-bit frame-size sum of the source wraps for the largest declared
      length: 4 + 0xFFFFFFFF + 4 comes out as 7, not the frame's true size. */
  lemma FrameSizeWraps()
    ensures FrameSizeAsWritten(0xFFFF_FFFF) == 7
    ensures FrameSize(0xFFFF_FFFF) == 0x1_0000_0007
  {
  }

  /** The number of chunks of type `t` in `cs`. */
  function CountOf(cs: seq<Chunk>, t: ChunkType): nat
    decreases |cs|
  {
    if |cs| == 0 then 0 else (if cs[0].chunkType == t then 1 else 0) + CountOf(cs[1..], t)
  }

  lemma {:induction false} CountOfConcat(a: seq<Chunk>, b: seq<Chunk>, t: ChunkType)
    ensures CountOf(a + b, t) == CountOf(a, t) + CountOf(b, t)
    decreases |a|
  {
    if |a| == 0 {
      assert a + b == b;
    } else {
      assert (a + b)[1..] == a[1..] + b;
      CountOfConcat(a[1..], b, t);
    }
  }

  lemma {:induction false} CountOfNone(cs: seq<Chunk>, t: ChunkType)
    ensures CountOf(cs, t) == 0 <==> forall j | 0 <= j < |cs| :: cs[j].chunkType != t
    decreases |cs|
  {
    if |cs| > 0 {
      CountOfNone(cs[1..], t);
      assert forall j | 1 <= j < |cs| :: cs[j] == cs[1..][j - 1];
    }
  }

  /** Removal takes exactly one chunk of the named type, however many there are,
      and leaves the number of chunks of every other type unchanged. */
  lemma RemoveTakesOne(p: Png, s: seq<byte>, u: ChunkType)
    requires |s| <= 4
    requires RemoveChunk(p, s).1.Ok?
    ensures var t := FromStr(s).value;
            var q := RemoveChunk(p, s).0;
            && CountOf(q.chunks, t) == CountOf(p.chunks, t) - 1
            && (u != t ==> CountOf(q.chunks, u) == CountOf(p.chunks, u))
  {
    var t := FromStr(s).value;
    var cs := p.chunks;
    var i := Position(cs, t).value;
    assert cs == cs[..i] + ([cs[i]] + cs[i + 1..]);
    CountOfConcat(cs[..i], [cs[i]] + cs[i + 1..], t);
    CountOfConcat([cs[i]], cs[i + 1..], t);
    CountOfConcat(cs[..i], cs[i + 1..], t);
    CountOfConcat(cs[..i], [cs[i]] + cs[i + 1..], u);
    CountOfConcat([cs[i]], cs[i + 1..], u);
    CountOfConcat(cs[..i], cs[i + 1..], u);
  }

  /** Removing a type present exactly once leaves no chunk of that type to find. */
  lemma RemoveOnlyOccurrence(p: Png, s: seq<byte>)
    requires |s| <= 4
    requires CountOf(p.chunks, FromStr(s).value) == 1
    ensures RemoveChunk(p, s).1.Ok?
    ensures ChunkByType(RemoveChunk(p, s).0, s) == None
  {
    var t := FromStr(s).value;
    CountOfNone(p.chunks, t);
    RemoveTakesOne(p, s, t);
    CountOfNone(RemoveChunk(p, s).0.chunks, t);
  }

  /** Append then remove: a chunk appended under a type the container did not
      hold is what a lookup of that type finds, and removing it gives back the
      original container. */
  lemma AppendThenRemove(p: Png, c: Chunk, s: seq<byte>)
    requires |s| <= 4 && ChunkByType(p, s).None? && c.chunkType == FromStr(s).value
    ensures ChunkByType(AppendChunk(p, c), s) == Some(c)
    ensures RemoveChunk(AppendChunk(p, c), s) == (p, Ok(c))
  {
    var cs := AppendChunk(p, c).chunks;
    assert IsFirstMatch(cs, c.chunkType, |p.chunks|);
    assert cs[..|p.chunks|] + cs[|p.chunks| + 1..] == p.chunks;
  }

  /** Appending and removing keep every chunk valid, so the container still
      serialises to bytes that parse back to it. */
  lemma EditsPreserveValidity(p: Png, c: Chunk, s: seq<byte>)
    requires AllValid(p.chunks) && Valid(c) && |s| <= 4
    ensures AllValid(AppendChunk(p, c).chunks)
    ensures AllValid(RemoveChunk(p, s).0.chunks)
  {
    AllValidAppend(p.chunks, c);
    match Position(p.chunks, FromStr(s).value) {
      case None =>
      case Some(i) => AllValidWithout(p.chunks, i);
    }
  }

  lemma AllValidAppend(cs: seq<Chunk>, c: Chunk)
    requires AllValid(cs) && Valid(c)
    ensures AllValid(cs + [c])
  {
    var out := cs + [c];
    forall j | 0 <= j < |out|
      ensures Valid(out[j])
    {
      if j < |cs| { assert out[j] == cs[j]; }
    }
  }

  lemma AllValidWithout(cs: seq<Chunk>, i: nat)
    requires AllValid(cs) && i < |cs|
    ensures AllValid(cs[..i] + cs[i + 1..])
  {
    var out := cs[..i] + cs[i + 1..];
    forall j | 0 <= j < |out|
      ensures Valid(out[j])
    {
      assert out[j] == cs[if j < i then j else j + 1];
    }
  }

  /** Hiding a message and finding it again: append a chunk built from a type
      and message to a parsed container, serialise, parse the result, and look
      the type up; when no chunk of that type was there before, the lookup
      returns the new chunk with the message as its data. */
  lemma EncodeThenDecode(input: seq<byte>, s: seq<byte>, message: seq<byte>)
    requires Parse(input).Ok? && |s| <= 4 && |message| <= MAX_LEN
    requires ChunkByType(Parse(input).value, s).None?
    ensures var c := New(FromStr(s).value, message);
            var output := AsBytes(AppendChunk(Parse(input).value, c));
            && Parse(output).Ok?
            && ChunkByType(Parse(output).value, s) == Some(c)
            && c.data == message
  {
    var p := Parse(input).value;
    var t := FromStr(s).value;
    var c := New(t, message);
    var q := AppendChunk(p, c);
    EditsPreserveValidity(p, c, s);
    assert q == FromChunks(q.chunks);
    RoundTrip(q.chunks);
    assert IsFirstMatch(q.chunks, t, |p.chunks|);
  }
}
