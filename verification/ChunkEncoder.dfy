/**
  The encoder shape of the endpoint's own tests (tests/multipart.rs), with chunk
  signatures when they are wanted: every body it produces, whatever bytes the chunks
  hold, survives every framing, and so does every body that a client has signed.
*/
module ChunkEncoder {
  import opened Bytes
  import opened AwsChunked
  import opened ChunkSignatures
  import opened StreamingSpec
  import opened StreamingProofs
  import opened FramingProofs
  import opened SignatureProofs

  const SIGNATURE_EXTENSION: bytes := Ascii("chunk-signature=")

  /** The header line of a chunk: its size, and its signature as an extension. */
  function ChunkLine(chunk: Chunk): bytes {
    match chunk.signature
    case None => Hex(|chunk.data|)
    case Some(s) => Hex(|chunk.data|) + [SEMICOLON] + (SIGNATURE_EXTENSION + s)
  }

  function EncodeChunks(chunks: seq<Chunk>): bytes {
    if chunks == [] then []
    else ChunkLine(chunks[0]) + CRLF + (chunks[0].data + CRLF + EncodeChunks(chunks[1..]))
  }

  /** Chunks, the closing zero chunk, trailer lines, and the empty line. */
  function EncodeBody(chunks: seq<Chunk>, closing: Option<bytes>, lines: seq<bytes>): bytes {
    EncodeChunks(chunks) + (ChunkLine(Chunk([], closing)) + CRLF + Section(lines))
  }

  predicate SendableSignature(s: Option<bytes>) { s.Some? ==> LowerHex64(s.value) }

  predicate Sendable(chunks: seq<Chunk>) {
    forall i :: 0 <= i < |chunks| ==> 0 < |chunks[i].data| <= USIZE_MAX - 2 && SendableSignature(chunks[i].signature)
  }

  ghost predicate SendableLines(lines: seq<bytes>) {
    forall i :: 0 <= i < |lines| ==> CleanLine(lines[i]) && ShortLine(lines[i])
  }

  // ------------------------------------------------------------ header lines

  function Pow16(k: nat): nat { if k == 0 then 1 else 16 * Pow16(k - 1) }

  lemma {:induction false} HexIsShort(n: nat, k: nat)
    requires k >= 1 && n < Pow16(k)
    ensures |Hex(n)| <= k
    decreases k
  {
    if n >= 16 {
      assert Pow16(1) == 16;
      HexIsShort(n / 16, k - 1);
    }
  }

  lemma DigitsAreTrimmed(h: bytes)
    requires forall i :: 0 <= i < |h| ==> DigitValue(h[i], 16).Some?
    ensures Trimmed(h) && SEMICOLON !in h
  {
    assert forall i :: 0 <= i < |h| ==> 48 <= h[i] <= 57 || 65 <= h[i] <= 70 || 97 <= h[i] <= 102;
  }

  lemma SizeIsShort(n: nat)
    requires n <= USIZE_MAX
    ensures |Hex(n)| <= 16
  {
    assert Pow16(4) == 0x1_0000;
    assert Pow16(8) == 0x1_0000_0000;
    assert Pow16(12) == 0x1_0000_0000_0000;
    HexIsShort(n, 16);
  }

  lemma NoExtensions()
    ensures ReadExtensions(Split([], SEMICOLON), None) == Ok(None)
  {
    var none: seq<bytes> := [[]];
    assert Split([], SEMICOLON) == none && none[1..] == [];
    assert Trim([]) == [];
  }

  lemma OneExtension(extension: bytes, name: bytes, s: bytes)
    requires Trim(extension) != [] && SplitOnce(extension, EQUALS) == Some((name, s))
    requires Lower(Trim(name)) == CHUNK_SIGNATURE && LowerHex64(s) && Trim(s) == s
    ensures ReadExtensions([extension], None) == Ok(Some(s))
  {
    hide Trim, Lower, LowerHex64, SplitOnce;
    var only: seq<bytes> := [extension];
    assert only[1..] == [];
    assert ReadExtensions(only[1..], Some(s)) == Ok(Some(s));
  }

  /** The signature extension is found. */
  lemma SignatureIsRead(s: bytes)
    requires LowerHex64(s)
    ensures ReadExtensions(Split(SIGNATURE_EXTENSION + s, SEMICOLON), None) == Ok(Some(s))
  {
    var name := Ascii("chunk-signature");
    var extension := SIGNATURE_EXTENSION + s;
    assert extension == name + [EQUALS] + s;
    assert forall i :: 0 <= i < |extension| ==> extension[i] != SEMICOLON;
    assert forall i :: 0 <= i < |name| ==> name[i] != EQUALS;
    assert Lower(name) == name;
    VisibleEndsStay(extension);
    VisibleEndsStay(name);
    VisibleEndsStay(s);
    hide Trim, Lower, LowerHex64, ReadExtensions;
    SplitOnceAt(name, EQUALS, s);
    assert Split(extension, SEMICOLON) == [extension];
    OneExtension(extension, name, s);
  }

  /** A header line is read back as the size and the signature it was made of. */
  lemma ChunkLineParses(chunk: Chunk)
    requires |chunk.data| <= USIZE_MAX && SendableSignature(chunk.signature)
    ensures ParseSize(ChunkLine(chunk)) == Some(|chunk.data|)
    ensures ParseHeader(ChunkLine(chunk)) == Ok(Header(|chunk.data|, chunk.signature))
  {
    var hex := Hex(|chunk.data|);
    DigitsAreTrimmed(hex);
    TrimmedStays(hex);
    ParseHexOfHex(|chunk.data|, USIZE_MAX);
    hide Hex, Trim, ParseUnsigned, ReadExtensions, Split;
    match chunk.signature
    case None => NoExtensions();
    case Some(s) =>
      SignatureIsRead(s);
      SplitOnceAt(hex, SEMICOLON, SIGNATURE_EXTENSION + s);
  }

  lemma ChunkLineIsPlain(chunk: Chunk)
    requires |chunk.data| <= USIZE_MAX && SendableSignature(chunk.signature)
    ensures CleanLine(ChunkLine(chunk)) && ShortLine(ChunkLine(chunk))
  {
    var line := ChunkLine(chunk);
    SizeIsShort(|chunk.data|);
    hide Hex;
    assert forall i :: 0 <= i < |line| ==> 32 < line[i] < 0x80;
    AsciiIsUtf8(line);
  }

  // --------------------------------------------------------------- sections and bodies

  lemma CleanLineReads(line: bytes, rest: bytes)
    requires line == [] || CleanLine(line)
    ensures ReadLine(line + CRLF + rest) == Ok((line, rest))
  {
    FindCrlfOfLine(line, rest);
    var b := line + CRLF + rest;
    assert b[..|line|] == line && b[|line| + 2..] == rest;
  }

  lemma {:induction false} SectionDecodes(data: bytes, t: Trailers, lines: seq<bytes>)
    requires SendableLines(lines) && FoldTrailers(t, lines).Ok?
    ensures DecodeTrailers(Section(lines), data, t) == Ok(Decoded(data, FoldTrailers(t, lines).value, []))
    ensures SectionLines(Section(lines)) == lines
    decreases |lines|
  {
    hide AddTrailer, ReadLine;
    if lines == [] {
      assert CRLF == [] + CRLF + [];
      CleanLineReads([], []);
    } else {
      CleanLineReads(lines[0], Section(lines[1..]));
      SectionDecodes(data, AddTrailer(t, lines[0]).value, lines[1..]);
    }
  }

  lemma ChunkIsTaken(chunk: bytes, after: bytes)
    requires |chunk| <= USIZE_MAX - 2
    ensures TakeChunk(chunk + CRLF + after, |chunk|) == Ok((chunk, after))
  {
    var rest := chunk + CRLF + after;
    assert rest[|chunk|..|chunk| + 2] == CRLF && rest[..|chunk|] == chunk && rest[|chunk| + 2..] == after;
  }

  lemma PayloadCons(chunk: Chunk, rest: seq<Chunk>)
    ensures Payload([chunk] + rest) == chunk.data + Payload(rest)
    decreases |rest|
  {
    var all := [chunk] + rest;
    if rest == [] {
      assert all[..0] == [];
    } else {
      assert all[..|all| - 1] == [chunk] + rest[..|rest| - 1];
      PayloadCons(chunk, rest[..|rest| - 1]);
    }
  }

  /** What decoding a body means for its lines, for short. */
  ghost predicate DecodesTo(b: bytes, data: bytes, whole: bytes, t: Trailers, lines: seq<bytes>) {
    && DecodeChunks(b, data) == Ok(Decoded(whole, t, []))
    && GoodHeaders(HeaderLines(b))
    && BodyTrailerLines(b) == lines
  }

  lemma ClosingDecodes(data: bytes, closing: Option<bytes>, lines: seq<bytes>)
    requires SendableSignature(closing) && SendableLines(lines) && FoldTrailers(map[], lines).Ok?
    ensures var b := ChunkLine(Chunk([], closing)) + CRLF + Section(lines);
            DecodesTo(b, data, data, FoldTrailers(map[], lines).value, lines)
  {
    hide ReadLine, ParseSize, ParseHeader, DecodeTrailers, SectionLines, FoldTrailers, Section, ChunkLine;
    hide SendableLines, CleanLine;
    var end := Chunk([], closing);
    ChunkLineParses(end);
    ChunkLineIsPlain(end);
    CleanLineReads(ChunkLine(end), Section(lines));
    SectionDecodes(data, map[], lines);
  }

  lemma ChunkDecodes(data: bytes, chunk: Chunk, after: bytes, whole: bytes, t: Trailers, lines: seq<bytes>)
    requires 0 < |chunk.data| <= USIZE_MAX - 2 && SendableSignature(chunk.signature)
    requires DecodesTo(after, data + chunk.data, whole, t, lines)
    ensures DecodesTo(ChunkLine(chunk) + CRLF + (chunk.data + CRLF + after), data, whole, t, lines)
  {
    hide ReadLine, ParseSize, ParseHeader, TakeChunk, DecodeTrailers, SectionLines, ChunkLine, CleanLine;
    var rest := chunk.data + CRLF + after;
    var b := ChunkLine(chunk) + CRLF + rest;
    ChunkLineParses(chunk);
    ChunkLineIsPlain(chunk);
    CleanLineReads(ChunkLine(chunk), rest);
    ChunkIsTaken(chunk.data, after);
    assert HeaderLines(b) == [ChunkLine(chunk)] + HeaderLines(after);
  }

  lemma {:induction false} BodyDecodes(
      data: bytes, chunks: seq<Chunk>, closing: Option<bytes>, lines: seq<bytes>)
    requires Sendable(chunks) && SendableSignature(closing) && SendableLines(lines) && FoldTrailers(map[], lines).Ok?
    ensures DecodesTo(
              EncodeBody(chunks, closing, lines), data, data + Payload(chunks), FoldTrailers(map[], lines).value, lines)
    decreases |chunks|
  {
    hide FoldTrailers, Section, ChunkLine, SendableLines, DecodesTo, Payload;
    var b, t := EncodeBody(chunks, closing, lines), FoldTrailers(map[], lines).value;
    if chunks == [] {
      assert b == ChunkLine(Chunk([], closing)) + CRLF + Section(lines);
      ClosingDecodes(data, closing, lines);
      PayloadOfNothing();
      assert data + [] == data;
    } else {
      var chunk, after := chunks[0], EncodeBody(chunks[1..], closing, lines);
      assert b == ChunkLine(chunk) + CRLF + (chunk.data + CRLF + after);
      BodyDecodes(data + chunk.data, chunks[1..], closing, lines);
      PayloadCons(chunk, chunks[1..]);
      assert chunks == [chunk] + chunks[1..];
      assert data + chunk.data + Payload(chunks[1..]) == data + Payload(chunks);
      ChunkDecodes(data, chunk, after, data + Payload(chunks), t, lines);
    }
  }

  // ------------------------------------------------------ the chunks themselves

  lemma {:induction false} TrailersKeepLog(env: Env, c: Config)
    requires c.phase == Trailer
    ensures Drain(env, c).config.log == c.log
    decreases |c.buffer|
  {
    hide TrailerStep;
    TrailerStepLog(env, c);
    TrailerEndLog(env, c);
    if Step(env, c).Continue? { TrailersKeepLog(env, Step(env, c).next); }
  }

  lemma TrailerEndLog(env: Env, c: Config)
    ensures TrailerStep(env, c).Finish? ==> TrailerStep(env, c).end.log == c.log
  {
    hide Utf8Valid, AddTrailer, VerifyTrailers;
  }

  /** The header step of an encoded chunk, without a verifier. */
  lemma ChunkLineStep(env: Env, c: Config, chunk: Chunk, rest: bytes)
    requires |chunk.data| <= USIZE_MAX && SendableSignature(chunk.signature)
    requires c.verifier.None? && c.buffer == ChunkLine(chunk) + CRLF + rest
    ensures HeaderStep(env, c) ==
              if chunk.data == [] then Continue(c.(buffer := rest, phase := Trailer, log := c.log + [chunk]))
              else Continue(c.(buffer := rest, phase := ChunkData(|chunk.data|, chunk.signature)))
  {
    ChunkLineParses(chunk);
    ChunkLineIsPlain(chunk);
    CleanLineReads(ChunkLine(chunk), rest);
    hide ParseHeader, ChunkLine, CleanLine;
    LineIsTaken(c.buffer);
  }

  /** A parse of an encoded body that finishes logs exactly the chunks it was made of. */
  lemma {:induction false} EncodedChunksAreLogged(
      env: Env, c: Config, chunks: seq<Chunk>, closing: Option<bytes>, lines: seq<bytes>)
    requires Sendable(chunks) && SendableSignature(closing)
    requires c.phase == ChunkHeader && c.verifier.None? && c.buffer == EncodeBody(chunks, closing, lines)
    requires Drain(env, c).Finished?
    ensures Drain(env, c).config.log == c.log + chunks + [Chunk([], closing)]
    decreases |chunks|
  {
    hide HeaderStep, DataStep, ChunkLine, Section;
    if chunks == [] {
      var end := Chunk([], closing);
      ChunkLineStep(env, c, end, Section(lines));
      TrailersKeepLog(env, HeaderStep(env, c).next);
      assert c.log + chunks + [end] == c.log + [end];
    } else {
      var chunk, after := chunks[0], EncodeBody(chunks[1..], closing, lines);
      assert c.buffer == ChunkLine(chunk) + CRLF + (chunk.data + CRLF + after);
      ChunkLineStep(env, c, chunk, chunk.data + CRLF + after);
      var d := HeaderStep(env, c).next;
      ChunkDataStep(env, d, chunk, after);
      assert Drain(env, c) == Drain(env, d);
      EncodedChunksAreLogged(env, DataStep(env, d).next, chunks[1..], closing, lines);
      assert c.log + [chunk] + chunks[1..] + [Chunk([], closing)] == c.log + chunks + [Chunk([], closing)];
    }
  }

  lemma ChunkDataStep(env: Env, c: Config, chunk: Chunk, after: bytes)
    requires |chunk.data| <= USIZE_MAX - 2
    requires c.verifier.None? && c.phase == ChunkData(|chunk.data|, chunk.signature)
    requires c.buffer == chunk.data + CRLF + after && Drain(env, c).Finished?
    ensures DataStep(env, c) == Continue(c.(buffer := after, phase := ChunkHeader, log := c.log + [chunk]))
  {
    hide Payload;
    var size := |chunk.data|;
    assert c.buffer[size..size + 2] == CRLF && c.buffer[..size] == chunk.data && c.buffer[size + 2..] == after;
  }

  // ------------------------------------------------------------- every framing

  /** However a finishing body is framed, it leaves what one push of it leaves. */
  lemma EveryFramingIsOnePush(env: Env, verifier: Option<Verifier>, frames: seq<bytes>)
    requires Run(env, Fresh(verifier), frames).Finished?
    requires Drain(env, Fresh(verifier).Feed(Flatten(frames))).Finished?
    ensures Run(env, Fresh(verifier), frames) == Drain(env, Fresh(verifier).Feed(Flatten(frames)))
  {
    hide Drain, Run;
    var c := Fresh(verifier);
    var k := RunIsOnePush(env, c, frames);
    var pulled, rest := Flatten(frames[..k]), Flatten(frames[k..]);
    assert frames == frames[..k] + frames[k..];
    FlattenAppend(frames[..k], frames[k..]);
    FeedTwice(c, pulled, rest);
    DrainSplit(env, c.Feed(pulled), rest);
    assert rest == [] ==> pulled + rest == pulled;
  }

  /**
    Round trip: an encoded upload yields its chunks, payload, signatures and all, and its
    trailers from the streaming parser however it is framed, even when the payload
    contains CR LF.
  */
  lemma EncodedBodySurvivesEveryFraming(
      env: Env, chunks: seq<Chunk>, closing: Option<bytes>, lines: seq<bytes>, frames: seq<bytes>)
    requires Sendable(chunks) && SendableSignature(closing) && SendableLines(lines) && FoldTrailers(map[], lines).Ok?
    requires WithinLimit(env, |Payload(chunks)|)
    requires Flatten(frames) == EncodeBody(chunks, closing, lines)
    ensures Accepts(env, Fresh(None), frames, Payload(chunks), FoldTrailers(map[], lines).value)
    ensures Run(env, Fresh(None), frames).config.log == chunks + [Chunk([], closing)]
  {
    hide DecodeChunks, HeaderLines, BodyTrailerLines, EncodeBody, FoldTrailers, Drain, Run, Payload, WithinLimit;
    var b, t := EncodeBody(chunks, closing, lines), FoldTrailers(map[], lines).value;
    BodyDecodes([], chunks, closing, lines);
    assert [] + Payload(chunks) == Payload(chunks);
    AcceptedWheneverGood(env, b, frames, Payload(chunks), t);
    assert Flatten([b]) == b;
    AcceptedWheneverGood(env, b, [b], Payload(chunks), t);
    OneFrame(env, Fresh(None), b, Payload(chunks), t);
    EveryFramingIsOnePush(env, None, frames);
    var c := Fresh(None).Feed(b);
    assert c.buffer == b;
    EncodedChunksAreLogged(env, c, chunks, closing, lines);
    assert [] + chunks + [Chunk([], closing)] == chunks + [Chunk([], closing)];
  }

  // -------------------------------------------------------------- signed bodies

  /** The data signed piece by piece from the seed. */
  function Sign(crypto: Crypto, seed: Verifier, data: seq<bytes>): (r: seq<Chunk>)
    ensures |r| == |data| && forall i :: 0 <= i < |r| ==> r[i].data == data[i]
  {
    if data == [] then []
    else
      var n := |data| - 1;
      var before := Sign(crypto, seed, data[..n]);
      before + [Chunk(data[n], Some(ChunkSignature(crypto, After(crypto, seed, before), data[n])))]
  }

  lemma {:induction false} SignedIsChained(crypto: Crypto, seed: Verifier, data: seq<bytes>)
    ensures Chained(crypto, seed, Sign(crypto, seed, data))
    decreases |data|
  {
    hide ChunkSignature, Chained, ExpectedSignature;
    if data == [] {
      NothingIsChained(crypto, seed);
    } else {
      var n := |data| - 1;
      SignedIsChained(crypto, seed, data[..n]);
      var before := Sign(crypto, seed, data[..n]);
      var last := Sign(crypto, seed, data)[n];
      assert Sign(crypto, seed, data) == before + [last];
      VerifyExtendsChain(crypto, seed, before, last);
    }
  }

  lemma NothingIsChained(crypto: Crypto, seed: Verifier)
    ensures Chained(crypto, seed, [])
  {}

  /** Signatures are 64 lower-case hexadecimal digits. */
  ghost predicate HexSignatures(crypto: Crypto) { forall k, m :: LowerHex64(crypto.hmacHex(k, m)) }

  lemma {:induction false} SignedIsSendable(crypto: Crypto, seed: Verifier, data: seq<bytes>)
    requires HexSignatures(crypto)
    ensures forall i :: 0 <= i < |data| ==> SendableSignature(Sign(crypto, seed, data)[i].signature)
    decreases |data|
  {
    if data != [] { SignedIsSendable(crypto, seed, data[..|data| - 1]); }
  }

  lemma {:induction false} PayloadIsFlattened(chunks: seq<Chunk>, data: seq<bytes>)
    requires |chunks| == |data| && forall i :: 0 <= i < |data| ==> chunks[i].data == data[i]
    ensures Payload(chunks) == Flatten(data)
    decreases |data|
  {
    if data != [] {
      PayloadIsFlattened(chunks[1..], data[1..]);
      PayloadCons(chunks[0], chunks[1..]);
      assert chunks == [chunks[0]] + chunks[1..];
    }
  }

  /** The body a client sends: its data and an empty chunk, all signed, and its trailer lines. */
  function SignedBody(crypto: Crypto, seed: Verifier, data: seq<bytes>, lines: seq<bytes>): bytes {
    var log := Sign(crypto, seed, data + [[]]);
    EncodeBody(log[..|data|], log[|data|].signature, lines)
  }

  /**
    Every upload that a client has signed from the seed, with the trailer signature where
    the mode wants one, is accepted however it is framed, with its data and trailers.
  */
  lemma SignedBodySurvivesEveryFraming(
      env: Env, seed: Verifier, data: seq<bytes>, lines: seq<bytes>, frames: seq<bytes>)
    requires HexSignatures(env.crypto) && forall i :: 0 <= i < |data| ==> 0 < |data[i]| <= USIZE_MAX - 2
    requires SendableLines(lines) && FoldTrailers(map[], lines).Ok?
    requires TrailersVerify(env, seed, Sign(env.crypto, seed, data + [[]]), FoldTrailers(map[], lines).value)
    requires WithinLimit(env, |Flatten(data)|)
    requires Flatten(frames) == SignedBody(env.crypto, seed, data, lines)
    ensures Accepts(env, Fresh(Some(seed)), frames, Flatten(data), FoldTrailers(map[], lines).value)
    ensures Run(env, Fresh(Some(seed)), frames).config.log == Sign(env.crypto, seed, data + [[]])
  {
    hide HexSignatures, SendableLines, FoldTrailers, TrailersVerify, Run, Chained, EncodeBody, LowerHex64, Sign;
    var log := Sign(env.crypto, seed, data + [[]]);
    var n := |data|;
    SignedIsSendable(env.crypto, seed, data + [[]]);
    SignedIsChained(env.crypto, seed, data + [[]]);
    PayloadIsFlattened(log[..n], data);
    hide Flatten, Payload, WithinLimit;
    EncodedBodySurvivesEveryFraming(env, log[..n], log[n].signature, lines, frames);
    assert log[..n] + [Chunk([], log[n].signature)] == log;
    SignedAcceptance(env, seed, frames);
  }

  /** The trailer line of the tests: `name: value`, for a clean name and value. */
  lemma TrailerLineReadsBack(t: Trailers, name: bytes, value: bytes)
    requires COLON !in name && Trimmed(name) && Lower(name) == name && Trimmed(value) && name !in t
    ensures AddTrailer(t, name + [COLON] + ([32] + value)) == Ok(t[name := value])
  {
    var v := [32] + value;
    SplitOnceAt(name, COLON, v);
    assert WhiteHead(v) == 1 && v[1..] == value;
    TrimmedStays(name);
    TrimmedStays(value);
    assert TrimStart(v) == TrimStart(value);
  }
}
