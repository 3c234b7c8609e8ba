/**
  Receiving an upload body (src/body/upload.rs): the streaming parser as the object
  it is, the digests it feeds, and the checks that decide whether the upload counts.
*/
module UploadBody {
  import opened Bytes
  import opened AwsChunked
  import opened ChunkSignatures
  import opened StreamingSpec
  import opened StreamingProofs
  import opened SignatureProofs
  import opened Checksums

  /** A request body as it comes in: its frames, and whether the stream then breaks off with an error. */
  datatype Body = Body(frames: seq<bytes>, broken: bool)

  /**
    The temporary file behind the buffered writer. The i-th write fails when `fails(i)`,
    after taking up to `partial(i)` bytes.
  */
  class Writer {
    var written: bytes
    var writes: nat
    const fails: nat -> bool
    const partial: nat -> nat

    constructor (fails: nat -> bool, partial: nat -> nat)
      ensures written == [] && writes == 0 && this.fails == fails && this.partial == partial
    {
      written, writes, this.fails, this.partial := [], 0, fails, partial;
    }

    /** No write has failed so far. */
    ghost predicate Intact()
      reads this
    {
      forall i :: 0 <= i < writes ==> !fails(i)
    }

    method WriteAll(chunk: bytes) returns (ok: bool)
      requires Intact()
      modifies this
      ensures ok <==> Intact()
      ensures ok ==> written == old(written) + chunk
      ensures old(written) <= written <= old(written) + chunk
    {
      ok := !fails(writes);
      written := written + if ok || partial(writes) > |chunk| then chunk else chunk[..partial(writes)];
      writes := writes + 1;
    }
  }

  // ------------------------------------------------------------- request headers

  datatype PayloadHashMode =
    | Missing
    | UnsignedPayload
    | FixedSha256(digest: bytes)
    | StreamingSigned
    | StreamingSignedTrailer
    | StreamingUnsignedTrailer

  function HexDecode(s: bytes): bytes
    requires LowerHex64(s)
  {
    seq(32, i requires 0 <= i < 32 =>
      16 * DigitValue(s[2 * i], 16).value + DigitValue(s[2 * i + 1], 16).value)
  }

  function ParsePayloadMode(v: bytes): Option<PayloadHashMode> {
    if v == Ascii("UNSIGNED-PAYLOAD") then Some(UnsignedPayload)
    else if v == Ascii("STREAMING-AWS4-HMAC-SHA256-PAYLOAD") then Some(StreamingSigned)
    else if v == Ascii("STREAMING-AWS4-HMAC-SHA256-PAYLOAD-TRAILER") then Some(StreamingSignedTrailer)
    else if v == Ascii("STREAMING-UNSIGNED-PAYLOAD-TRAILER") then Some(StreamingUnsignedTrailer)
    else if LowerHex64(v) then Some(FixedSha256(HexDecode(v)))
    else None
  }

  function PayloadMode(h: Headers): Option<PayloadHashMode> {
    var values := Values(h, Ascii("x-amz-content-sha256"));
    if values == [] then Some(Missing)
    else if |values| > 1 || !VisibleAscii(values[0]) then None
    else ParsePayloadMode(values[0])
  }

  predicate IsAwsChunked(h: Headers) {
    var values := Values(h, Ascii("content-encoding"));
    && values != [] && VisibleAscii(values[0])
    && exists piece :: piece in Split(values[0], 44) && Lower(Trim(piece)) == Ascii("aws-chunked")
  }

  /** `validate_payload_hash_mode`: the mode must fit the framing. */
  predicate ModeFitsFraming(h: Headers) {
    && PayloadMode(h).Some?
    && var mode := PayloadMode(h).value;
       if IsAwsChunked(h)
       then mode.StreamingSigned? || mode.StreamingSignedTrailer? || mode.StreamingUnsignedTrailer?
       else mode.Missing? || mode.UnsignedPayload? || mode.FixedSha256?
  }

  function ParseLength(values: seq<bytes>): Option<Option<nat>> {
    if values == [] then Some(None)
    else if !VisibleAscii(values[0]) then None
    else match ParseUnsigned(values[0], 10, U64_MAX)
      case None => None
      case Some(n) => Some(Some(n))
  }

  function ContentLength(h: Headers): Option<Option<nat>> {
    ParseLength(Values(h, Ascii("content-length")))
  }

  function DecodedContentLength(h: Headers): Option<Option<nat>> {
    var values := Values(h, Ascii("x-amz-decoded-content-length"));
    if |values| > 1 then None else ParseLength(values)
  }

  // -------------------------------------------------------------------- digests

  predicate NeedsSha256(h: Headers) {
    !IsAwsChunked(h) && PayloadMode(h).Some? && PayloadMode(h).value.FixedSha256?
  }

  /** Which digests `UploadBodyState::new` switches on, before a byte is read. */
  predicate Enabled(h: Headers, a: Algorithm) {
    || a == Md5
    || (a == Sha256 && NeedsSha256(h))
    || Values(h, HeaderName(a)) != []
    || Declares(h, HeaderName(a))
  }

  /** Running digests, each represented by the bytes fed to it, and the byte count. */
  class UploadBodyState {
    var fed: map<Algorithm, bytes>
    var size: nat

    constructor (h: Headers)
      ensures size == 0
      ensures forall a :: a in fed <==> Enabled(h, a)
      ensures forall a :: a in fed ==> fed[a] == []
    {
      fed := map a: Algorithm | Enabled(h, a) :: [];
      size := 0;
    }

    /** Every enabled digest has seen exactly `written`. */
    ghost predicate InStep(written: bytes)
      reads this
    {
      size == |written| && forall a :: a in fed ==> fed[a] == written
    }

    /** Finalized digests; a digest that was not enabled yields its default. */
    function Digests(lib: Library): map<Algorithm, bytes>
      reads this
    {
      map a: Algorithm | true :: if a in fed then lib.digest(a, fed[a]) else DefaultDigest(a)
    }
  }

  method WriteBodyChunk(w: Writer, chunk: bytes, s: UploadBodyState) returns (ok: bool)
    requires s.InStep(w.written) && w.Intact()
    modifies w, s
    ensures ok <==> w.Intact()
    ensures ok ==> w.written == old(w.written) + chunk && s.InStep(w.written)
    ensures old(w.written) <= w.written <= old(w.written) + chunk
    ensures s.fed.Keys == old(s.fed.Keys)
  {
    s.size := s.size + |chunk|;
    s.fed := map a | a in s.fed :: s.fed[a] + chunk;
    ok := w.WriteAll(chunk);
  }

  // ------------------------------------------------------------ the parser object

  /** The loop over `;`-separated extensions. */
  method ParseAwsChunkHeader(line: bytes) returns (r: Result<Header, ParseError>)
    ensures r == ParseHeader(line)
  {
    var size := ParseSize(line);
    if size.None? { return Err(BadChunkSize(SizeToken(line))); }
    var extensions := Extensions(line);
    var signature: Option<bytes> := None;
    var i := 0;
    assert extensions[0..] == extensions;
    while i < |extensions|
      invariant i <= |extensions|
      invariant ReadExtensions(extensions, None) == ReadExtensions(extensions[i..], signature)
    {
      var extension := extensions[i];
      assert extensions[i..][1..] == extensions[i + 1..];
      if Trim(extension) != [] {
        match SplitOnce(extension, EQUALS) {
          case None => return Err(BadExtension(extension));
          case Some((name, value)) =>
            if Lower(Trim(name)) == CHUNK_SIGNATURE {
              if signature.Some? { return Err(DuplicateSignature); }
              if !LowerHex64(Trim(value)) { return Err(BadSignature); }
              signature := Some(Trim(value));
            }
        }
      }
      i := i + 1;
    }
    r := Ok(Header(size.value, signature));
  }

  /** How one turn of the parse loop ended. */
  datatype Turn = Waiting | Going | Ended(trailers: Trailers) | Refused(error: ParseError) | Unwritten

  class AwsChunkedUploadParser {
    var buffer: bytes
    var phase: Phase
    var trailers: Trailers
    var verifier: Option<Verifier>
    ghost var log: seq<Chunk>

    constructor (verifier: Option<Verifier>)
      ensures AsConfig() == Fresh(verifier)
    {
      buffer, phase, trailers := [], ChunkHeader, map[];
      this.verifier := verifier;
      log := [];
    }

    ghost function AsConfig(): Config
      reads this
    {
      Config(buffer, phase, trailers, verifier, log)
    }

    method ReadLine() returns (r: Result<Option<bytes>, ParseError>)
      modifies this`buffer
      ensures match TakeLine(old(buffer))
              case NoLine => r == Ok(None) && buffer == old(buffer)
              case BadLine(e) => r == Err(e)
              case Line(line, rest) => r == Ok(Some(line)) && buffer == rest
    {
      match FindCrlf(buffer) {
        case None =>
          if |buffer| > MAX_CONTROL_LINE { return Err(ControlLineTooLarge); }
          r := Ok(None);
        case Some(offset) =>
          var line := buffer[..offset];
          buffer := buffer[offset + 2..];
          if Utf8Valid(line) { r := Ok(Some(line)); } else { r := Err(NonUtf8Line); }
      }
    }

    method VerifyChunkSignature(env: Env, signature: Option<bytes>, data: bytes) returns (r: Option<ParseError>)
      modifies this`verifier
      ensures match VerifyChunk(env, old(verifier), Chunk(data, signature))
              case Err(e) => r == Some(e)
              case Ok(v) => r == None && verifier == v
    {
      if verifier.None? { return None; }
      if signature.None? || signature.value != ChunkSignature(env.crypto, verifier.value, data) {
        return Some(SignatureDoesNotMatch);
      }
      verifier := Some(verifier.value.(previous := signature.value));
      r := None;
    }

    method OnChunkHeader(env: Env) returns (turn: Turn)
      modifies this
      ensures match HeaderStep(env, old(AsConfig()))
              case Wait => turn == Waiting && AsConfig() == old(AsConfig())
              case Continue(n) => turn == Going && AsConfig() == n
              case Fail(e) => turn == Refused(e) && log == old(log)
              case Finish(_) => false
    {
      var line := ReadLine();
      if line.Err? { return Refused(line.error); }
      if line.value.None? { return Waiting; }
      var header := ParseAwsChunkHeader(line.value.value);
      if header.Err? { return Refused(header.error); }
      if header.value.size == 0 {
        var bad := VerifyChunkSignature(env, header.value.signature, []);
        if bad.Some? { return Refused(bad.value); }
        phase := Trailer;
        log := log + [Chunk([], header.value.signature)];
      } else {
        phase := ChunkData(header.value.size, header.value.signature);
      }
      turn := Going;
    }

    method OnChunkData(env: Env, w: Writer, s: UploadBodyState) returns (turn: Turn)
      requires phase.ChunkData?
      requires w.Intact() && w.written == Payload(log) && s.InStep(w.written)
      modifies this, w, s
      ensures s.fed.Keys == old(s.fed.Keys)
      ensures turn == Unwritten <==> !w.Intact()
      ensures turn != Unwritten ==> w.written == Payload(log) && s.InStep(w.written)
      ensures match DataStep(env, old(AsConfig()))
              case Wait => turn == Waiting && AsConfig() == old(AsConfig())
              case Continue(n) =>
                if turn == Unwritten then w.written <= Payload(n.log) else turn == Going && AsConfig() == n
              case Fail(e) => turn == Refused(e) && log == old(log)
              case Finish(_) => false
    {
      hide Payload, VerifyChunk;
      var size, signature := phase.size, phase.signature;
      if size + 2 > USIZE_MAX { return Refused(ChunkSizeOverflow); }
      if |buffer| < size + 2 { return Waiting; }
      if buffer[size..size + 2] != CRLF { return Refused(MissingTerminator); }
      var data := buffer[..size];
      buffer := buffer[size + 2..];
      var bad := VerifyChunkSignature(env, signature, data);
      if bad.Some? { return Refused(bad.value); }
      if SaturatingAdd(s.size, |data|) > env.maxDecodedSize { return Refused(EntityTooLarge); }
      PayloadAppend(log, Chunk(data, signature));
      var ok := WriteBodyChunk(w, data, s);
      if !ok { return Unwritten; }
      log := log + [Chunk(data, signature)];
      phase := ChunkHeader;
      turn := Going;
    }

    method OnTrailer(env: Env) returns (turn: Turn)
      requires phase == Trailer
      modifies this
      ensures match TrailerStep(env, old(AsConfig()))
              case Wait => turn == Waiting && AsConfig() == old(AsConfig())
              case Continue(n) => turn == Going && AsConfig() == n
              case Fail(e) => turn == Refused(e) && log == old(log)
              case Finish(n) => turn == Ended(n.trailers) && log == n.log
    {
      var line := ReadLine();
      if line.Err? { return Refused(line.error); }
      if line.value.None? { return Waiting; }
      var text := line.value.value;
      if text == [] {
        if verifier.Some? {
          match VerifyTrailer(env.crypto, verifier.value, trailers) {
            case None => return Refused(SignatureDoesNotMatch);
            case Some(v) => verifier := Some(v);
          }
        }
        phase := Done;
        if buffer != [] { return Refused(DataAfterFinalTrailer); }
        turn := Ended(trailers);
        trailers := map[];
        return;
      }
      match SplitOnce(text, COLON) {
        case None => return Refused(BadTrailer(MalformedTrailer(text)));
        case Some((name, value)) =>
          var key := Lower(Trim(name));
          if key in trailers { return Refused(BadTrailer(DuplicateTrailer(key))); }
          trailers := trailers[key := Trim(value)];
      }
      turn := Going;
    }

    /**
      One pushed frame computes `Drain`, and the writer holds exactly the logged payload;
      after a failed write, a prefix of it. A parser that already ended takes no more.
    */
    method PushAndWrite(env: Env, frame: bytes, w: Writer, s: UploadBodyState) returns (turn: Turn)
      requires w.Intact() && w.written == Payload(log) && s.InStep(w.written)
      modifies this, w, s
      ensures s.fed.Keys == old(s.fed.Keys)
      ensures turn == Unwritten <==> !w.Intact()
      ensures turn == Unwritten ==> w.written <= Payload(Drain(env, old(AsConfig()).Feed(frame)).config.log)
      ensures turn != Unwritten ==> w.written == Payload(log) && s.InStep(w.written)
      ensures turn != Unwritten && !old(phase == Done && buffer != []) ==>
                match Drain(env, old(AsConfig()).Feed(frame))
                case More(n) => turn == Waiting && AsConfig() == n && n.phase != Done
                case Finished(n) => turn == Ended(n.trailers) && log == n.log
                case Failed(e, n) => turn == Refused(e) && log == n.log
      ensures old(phase == Done) ==>
                && log == old(log)
                && turn == if frame == [] then Ended(old(trailers)) else Refused(DataAfterFinalTrailer)
    {
      if phase == Done {
        if frame != [] { return Refused(DataAfterFinalTrailer); }
        turn := Ended(trailers);
        trailers := map[];
        return;
      }
      hide HeaderStep, DataStep, TrailerStep, Payload;
      buffer := buffer + frame;
      ghost var start := AsConfig();
      while true
        invariant phase != Done && w.Intact()
        invariant w.written == Payload(log) && s.InStep(w.written) && s.fed.Keys == old(s.fed.Keys)
        invariant Drain(env, AsConfig()) == Drain(env, start)
        decreases |buffer|
      {
        ghost var before := AsConfig();
        assert Step(env, before).Continue? ==> |Step(env, before).next.buffer| + 2 <= |before.buffer|;
        match phase {
          case ChunkHeader => KeepsPayload(env, before); turn := OnChunkHeader(env);
          case ChunkData(_, _) =>
            turn := OnChunkData(env, w, s);
            if turn == Unwritten {
              DrainLog(env, Step(env, before).next);
              PayloadGrows(Step(env, before).next.log, Drain(env, start).config.log);
            }
          case Trailer => KeepsPayload(env, before); turn := OnTrailer(env);
        }
        if turn != Going { return; }
      }
    }
  }

  lemma KeepsPayload(env: Env, c: Config)
    ensures HeaderStep(env, c).Continue? ==> Payload(HeaderStep(env, c).next.log) == Payload(c.log)
    ensures TrailerStep(env, c).Continue? ==> TrailerStep(env, c).next.log == c.log
    ensures TrailerStep(env, c).Finish? ==> TrailerStep(env, c).end.log == c.log
  {
    hide ReadExtensions, Extensions, ParseSize, Utf8Valid, AddTrailer;
    if HeaderStep(env, c).Continue? {
      PayloadAppend(c.log, Chunk([], ParseHeader(TakeLine(c.buffer).line).value.signature));
      assert Payload(c.log) + [] == Payload(c.log);
    }
  }

  // -------------------------------------------------------- lazily enabled digests

  /** Digests with those that `h` did not enable at their defaults. */
  function LazyDigests(lib: Library, h: Headers, data: bytes): map<Algorithm, bytes> {
    map a: Algorithm | true :: if Enabled(h, a) then lib.digest(a, data) else DefaultDigest(a)
  }

  /** Whatever an acceptable request supplies, in header or trailer, was enabled from the start. */
  lemma SuppliedIsEnabled(lib: Library, h: Headers, t: Trailers, a: Algorithm)
    requires RequestAcceptable(lib, h, t) && Supplied(h, t, a).Some?
    ensures Enabled(h, a)
  {
    hide HeaderName, Declares;
    if a != Md5 && Values(h, HeaderName(a)) == [] {
      EveryAlgorithmIsListed(a);
    }
  }

  /** Leaving digests off never changes the verdict: no default value is ever compared. */
  lemma LazyVerdictIsEager(lib: Library, h: Headers, t: Trailers, request: ChecksumRequest, data: bytes)
    requires RequestAcceptable(lib, h, t)
    requires forall a :: a in request.expected <==> Supplied(h, t, a).Some?
    ensures Validates(request, LazyDigests(lib, h, data)) <==> Validates(request, DigestsOf(lib, data))
  {
    hide RequestAcceptable, Supplied, Enabled;
    forall a | a in request.expected
      ensures LazyDigests(lib, h, data)[a] == DigestsOf(lib, data)[a]
    {
      SuppliedIsEnabled(lib, h, t, a);
    }
  }

  // ------------------------------------------------------------------ whole bodies

  datatype UploadError =
    | InvalidRequest | BadDigest | TooLarge | SignatureRejected | Unparsable(cause: ParseError)
    | BodyUnreadable | WriteFailed

  datatype UploadedBody = UploadedBody(size: nat, md5: bytes, checksums: map<bytes, bytes>)

  method WriteAwsChunkedUploadBody(
      env: Env, h: Headers, body: Body, w: Writer, s: UploadBodyState, verifier: Option<Verifier>)
    returns (r: Result<Trailers, UploadError>)
    requires w.Intact() && w.written == [] && s.InStep([])
    modifies w, s
    ensures s.fed.Keys == old(s.fed.Keys)
    ensures var run := Run(env, Fresh(verifier), body.frames);
            if !w.Intact() then r == Err(WriteFailed) && w.written <= Payload(run.config.log)
            else
              && w.written == Payload(run.config.log) && s.InStep(w.written)
              && (r.Ok? <==> run.Finished? && DecodedContentLength(h) == Some(Some(|w.written|)))
              && (r.Ok? ==> r.value == run.config.trailers)
              && (run.Failed? ==>
                   r == Err(
                     if run.error == EndedUnexpectedly && body.broken then BodyUnreadable else Unparsable(run.error)))
  {
    var frames := body.frames;
    hide Drain, Payload, DecodedContentLength;
    var parser := new AwsChunkedUploadParser(verifier);
    assert Payload([]) == [] by { PayloadOfNothing(); }
    var i := 0;
    assert frames[0..] == frames;
    while i < |frames|
      invariant i <= |frames| && parser.phase != Done && w.Intact()
      invariant fresh(parser)
      invariant w.written == Payload(parser.log) && s.InStep(w.written) && s.fed.Keys == old(s.fed.Keys)
      invariant Run(env, Fresh(verifier), frames) == Run(env, parser.AsConfig(), frames[i..])
    {
      assert frames[i..][1..] == frames[i + 1..];
      ghost var before := parser.AsConfig();
      NoEarlyEnd(env, before.Feed(frames[i]));
      var turn := parser.PushAndWrite(env, frames[i], w, s);
      match turn {
        case Unwritten =>
          PushedLogGrows(env, before, frames[i..]);
          return Err(WriteFailed);
        case Refused(e) => return Err(Unparsable(e));
        case Ended(trailers) =>
          if DecodedContentLength(h) != Some(Some(s.size)) { return Err(InvalidRequest); }
          return Ok(trailers);
        case Waiting =>
      }
      i := i + 1;
    }
    r := Err(if body.broken then BodyUnreadable else Unparsable(EndedUnexpectedly));
  }

  /** Only a body that ran out ended unexpectedly. */
  lemma {:induction false} NoEarlyEnd(env: Env, c: Config)
    ensures Drain(env, c).Failed? ==> Drain(env, c).error != EndedUnexpectedly
    decreases |c.buffer|
  {
    hide Utf8Valid, AddTrailer, Payload, SizeToken, ParseSize, Extensions;
    if Step(env, c).Continue? { NoEarlyEnd(env, Step(env, c).next); }
  }

  /** What one push logs is the start of what the whole run logs. */
  lemma PushedLogGrows(env: Env, c: Config, frames: seq<bytes>)
    requires frames != []
    ensures Payload(Drain(env, c.Feed(frames[0])).config.log) <= Payload(Run(env, c, frames).config.log)
  {
    hide Drain, Payload;
    var pushed := Drain(env, c.Feed(frames[0]));
    if pushed.More? { RunLog(env, pushed.config, frames[1..]); }
    PayloadGrows(pushed.config.log, Run(env, c, frames).config.log);
  }

  lemma FlattenSnoc(frames: seq<bytes>, i: nat)
    requires i < |frames|
    ensures Flatten(frames[..i + 1]) == Flatten(frames[..i]) + frames[i]
    ensures |Flatten(frames[..i + 1])| <= |Flatten(frames)|
  {
    FlattenAppend(frames[..i], [frames[i]]);
    assert frames[..i + 1] == frames[..i] + [frames[i]];
    FlattenAppend(frames[..i + 1], frames[i + 1..]);
    assert frames == frames[..i + 1] + frames[i + 1..];
  }

  /** A plain body is taken whole, exactly when it has the announced length and fits. */
  method WritePlainBody(h: Headers, body: Body, w: Writer, s: UploadBodyState, max: nat)
    returns (r: Option<UploadError>)
    requires w.Intact() && w.written == [] && s.InStep([])
    modifies w, s
    ensures s.fed.Keys == old(s.fed.Keys)
    ensures r.None? ==> w.written == Flatten(body.frames) && s.InStep(w.written)
    ensures r.None? <==>
              && w.Intact() && !body.broken
              && ContentLength(h).Some?
              && (ContentLength(h).value.Some? ==> |Flatten(body.frames)| == ContentLength(h).value.value)
              && SaturatingAdd(0, |Flatten(body.frames)|) <= max
  {
    hide Flatten;
    var frames := body.frames;
    if ContentLength(h).None? { return Some(InvalidRequest); }
    var expected := ContentLength(h).value;
    assert frames[..0] == [] && Flatten(frames[..0]) == [] by { NothingFlat(frames); }
    for i := 0 to |frames|
      invariant w.Intact() && w.written == Flatten(frames[..i]) && s.InStep(w.written) && s.fed.Keys == old(s.fed.Keys)
      invariant i > 0 ==> SaturatingAdd(0, |w.written|) <= max
    {
      var chunk := frames[i];
      FlattenSnoc(frames, i);
      if expected.Some? && SaturatingAdd(s.size, |chunk|) > expected.value { return Some(InvalidRequest); }
      if SaturatingAdd(s.size, |chunk|) > max { return Some(TooLarge); }
      var ok := WriteBodyChunk(w, chunk, s);
      if !ok { return Some(WriteFailed); }
    }
    assert frames[..|frames|] == frames;
    if body.broken { return Some(BodyUnreadable); }
    if expected.Some? && expected.value != s.size { return Some(InvalidRequest); }
    r := None;
  }

  lemma NothingFlat(frames: seq<bytes>)
    ensures frames[..0] == [] && Flatten(frames[..0]) == []
  {}

  /** What a verifier the request's mode calls for starts from; None when no context is at hand. */
  function SignatureVerifier(h: Headers, signing: Option<Verifier>): Option<Option<Verifier>> {
    match PayloadMode(h)
    case Some(StreamingSigned) =>
      (match signing case None => None case Some(v) => Some(Some(v.(mode := SignedPayload))))
    case Some(StreamingSignedTrailer) =>
      (match signing case None => None case Some(v) => Some(Some(v.(mode := SignedPayloadTrailer))))
    case _ => Some(None)
  }

  /** Every supplied checksum, and any fixed SHA-256, is that of `data`. */
  ghost predicate Genuine(lib: Library, h: Headers, t: Trailers, data: bytes) {
    && (forall a :: Supplied(h, t, a).Some? ==> lib.base64(Supplied(h, t, a).value) == Some(lib.digest(a, data)))
    && (NeedsSha256(h) ==> PayloadMode(h).value.digest == lib.digest(Sha256, data))
  }

  /** The body arrived whole: what was written, and the trailers that came with it. */
  ghost predicate BodyArrived(
      env: Env, h: Headers, body: Body, signing: Option<Verifier>, data: bytes, t: Trailers)
  {
    && ModeFitsFraming(h)
    && if IsAwsChunked(h) then
         && SignatureVerifier(h, signing).Some?
         && var run := Run(env, Fresh(SignatureVerifier(h, signing).value), body.frames);
            run.Finished? && data == Payload(run.config.log) && t == run.config.trailers
            && DecodedContentLength(h) == Some(Some(|data|))
       else
         && !body.broken && data == Flatten(body.frames) && t == map[]
         && ContentLength(h).Some?
         && (ContentLength(h).value.Some? ==> |data| == ContentLength(h).value.value)
         && SaturatingAdd(0, |data|) <= env.maxDecodedSize
  }

  /** The request has one payload hash header, with this text. */
  predicate Announces(h: Headers, text: string) {
    Values(h, Ascii("x-amz-content-sha256")) == [Ascii(text)]
  }

  /** Chunks with this payload, each signed after the one before it from the seed on, the last one empty. */
  ghost predicate SignedChunks(crypto: Crypto, seed: Verifier, chunks: seq<Chunk>, data: bytes) {
    && Payload(chunks) == data && Chained(crypto, seed, chunks)
    && chunks != [] && chunks[|chunks| - 1].data == []
  }

  /**
    What a request announces about signatures is so: in the signed modes there is a
    signing context, the data came in chunks signed from it, and in the trailer mode the
    trailers are signed after them; in the unsigned mode the body is read without any.
  */
  ghost predicate SignedAsAnnounced(
      env: Env, h: Headers, body: Body, signing: Option<Verifier>, data: bytes, t: Trailers)
  {
    && (Announces(h, "STREAMING-AWS4-HMAC-SHA256-PAYLOAD") ==>
         signing.Some? && exists chunks :: SignedChunks(env.crypto, signing.value, chunks, data))
    && (Announces(h, "STREAMING-AWS4-HMAC-SHA256-PAYLOAD-TRAILER") ==>
         signing.Some? && exists chunks ::
           && SignedChunks(env.crypto, signing.value, chunks, data)
           && TrailerSignatureMatches(env.crypto, After(env.crypto, signing.value, chunks), t))
    && (Announces(h, "STREAMING-UNSIGNED-PAYLOAD-TRAILER") ==>
         var run := Run(env, Fresh(None), body.frames);
         run.Finished? && data == Payload(run.config.log) && t == run.config.trailers)
  }

  lemma {:induction false} ModeIsNotSigned(crypto: Crypto, v: Verifier, mode: SignatureMode, chunks: seq<Chunk>)
    ensures ExpectedSignature(crypto, v.(mode := mode), chunks) == ExpectedSignature(crypto, v, chunks)
    decreases |chunks|
  {
    if chunks != [] { ModeIsNotSigned(crypto, v, mode, chunks[..|chunks| - 1]); }
  }

  lemma FinishedRunIsSigned(env: Env, v: Verifier, mode: SignatureMode, frames: seq<bytes>)
    requires Run(env, Fresh(Some(v.(mode := mode))), frames).Finished?
    ensures var end := Run(env, Fresh(Some(v.(mode := mode))), frames).config;
            && SignedChunks(env.crypto, v, end.log, Payload(end.log))
            && (mode == SignedPayloadTrailer ==>
                 TrailerSignatureMatches(env.crypto, After(env.crypto, v, end.log), end.trailers))
  {
    hide Run, Payload, ExpectedSignature, TrailerStringToSign;
    var seed := v.(mode := mode);
    var end := Run(env, Fresh(Some(seed)), frames).config;
    NoChunks(env.crypto, seed);
    RunSigned(env, seed, Fresh(Some(seed)), frames);
    AcceptedBodyIsClosed(env, Some(seed), frames);
    forall chunks ensures ExpectedSignature(env.crypto, seed, chunks) == ExpectedSignature(env.crypto, v, chunks) {
      ModeIsNotSigned(env.crypto, v, mode, chunks);
    }
    TrailerModeIsNotSigned(env.crypto, After(env.crypto, v, end.log), mode, end.trailers);
  }

  lemma NoChunks(crypto: Crypto, v: Verifier)
    ensures ExpectedSignature(crypto, v, []) == v.previous
  {}

  lemma TrailerModeIsNotSigned(crypto: Crypto, v: Verifier, mode: SignatureMode, t: Trailers)
    ensures TrailerSignatureMatches(crypto, v.(mode := mode), t) == TrailerSignatureMatches(crypto, v, t)
  {
    hide TrailerLines;
  }

  lemma ModeTextsDiffer()
    ensures Ascii("STREAMING-AWS4-HMAC-SHA256-PAYLOAD") != Ascii("UNSIGNED-PAYLOAD")
    ensures Ascii("STREAMING-AWS4-HMAC-SHA256-PAYLOAD-TRAILER") !in
              {Ascii("UNSIGNED-PAYLOAD"), Ascii("STREAMING-AWS4-HMAC-SHA256-PAYLOAD")}
    ensures Ascii("STREAMING-UNSIGNED-PAYLOAD-TRAILER") !in
              {Ascii("UNSIGNED-PAYLOAD"), Ascii("STREAMING-AWS4-HMAC-SHA256-PAYLOAD"),
               Ascii("STREAMING-AWS4-HMAC-SHA256-PAYLOAD-TRAILER")}
  {
    var a, b := Ascii("STREAMING-AWS4-HMAC-SHA256-PAYLOAD"), Ascii("STREAMING-AWS4-HMAC-SHA256-PAYLOAD-TRAILER");
    var c, d := Ascii("STREAMING-UNSIGNED-PAYLOAD-TRAILER"), Ascii("UNSIGNED-PAYLOAD");
    assert |a| == 34 && |b| == 42 && |c| == 34 && |d| == 16 && a[10] != c[10];
  }

  /** The bytes of a visible literal are visible. */
  lemma VisibleLiteral(text: string)
    requires forall i :: 0 <= i < |text| ==> ' ' <= text[i] <= '~'
    ensures VisibleAscii(Ascii(text))
  {}

  lemma ParsedModes()
    ensures ParsePayloadMode(Ascii("STREAMING-AWS4-HMAC-SHA256-PAYLOAD")) == Some(StreamingSigned)
    ensures ParsePayloadMode(Ascii("STREAMING-AWS4-HMAC-SHA256-PAYLOAD-TRAILER")) == Some(StreamingSignedTrailer)
    ensures ParsePayloadMode(Ascii("STREAMING-UNSIGNED-PAYLOAD-TRAILER")) == Some(StreamingUnsignedTrailer)
    ensures ParsePayloadMode(Ascii("UNSIGNED-PAYLOAD")) == Some(UnsignedPayload)
  {
    ModeTextsDiffer();
    hide Ascii, LowerHex64, HexDecode;
  }

  lemma AnnouncedAs(h: Headers, text: string, mode: PayloadHashMode)
    requires forall i :: 0 <= i < |text| ==> ' ' <= text[i] <= '~'
    requires ParsePayloadMode(Ascii(text)) == Some(mode)
    ensures Announces(h, text) ==> PayloadMode(h) == Some(mode)
  {
    VisibleLiteral(text);
    hide VisibleAscii, ParsePayloadMode;
  }

  /** The texts that announce the streaming modes. */
  lemma AnnouncedModes(h: Headers)
    ensures Announces(h, "STREAMING-AWS4-HMAC-SHA256-PAYLOAD") ==> PayloadMode(h) == Some(StreamingSigned)
    ensures Announces(h, "STREAMING-AWS4-HMAC-SHA256-PAYLOAD-TRAILER") ==>
              PayloadMode(h) == Some(StreamingSignedTrailer)
    ensures Announces(h, "STREAMING-UNSIGNED-PAYLOAD-TRAILER") ==> PayloadMode(h) == Some(StreamingUnsignedTrailer)
    ensures Announces(h, "UNSIGNED-PAYLOAD") ==> PayloadMode(h) == Some(UnsignedPayload)
  {
    hide Ascii, Announces, PayloadMode, ParsePayloadMode;
    ParsedModes();
    AnnouncedAs(h, "STREAMING-AWS4-HMAC-SHA256-PAYLOAD", StreamingSigned);
    AnnouncedAs(h, "STREAMING-AWS4-HMAC-SHA256-PAYLOAD-TRAILER", StreamingSignedTrailer);
    AnnouncedAs(h, "STREAMING-UNSIGNED-PAYLOAD-TRAILER", StreamingUnsignedTrailer);
    AnnouncedAs(h, "UNSIGNED-PAYLOAD", UnsignedPayload);
  }

  lemma ArrivedAsAnnounced(
      env: Env, h: Headers, body: Body, signing: Option<Verifier>, data: bytes, t: Trailers)
    requires BodyArrived(env, h, body, signing, data, t)
    ensures SignedAsAnnounced(env, h, body, signing, data, t)
  {
    AnnouncedModes(h);
    hide Announces, PayloadMode, Run, Payload, IsAwsChunked, TrailerSignatureMatches, SignedChunks;
    match PayloadMode(h)
    case Some(StreamingSigned) => FinishedRunIsSigned(env, signing.value, SignedPayload, body.frames);
    case Some(StreamingSignedTrailer) => FinishedRunIsSigned(env, signing.value, SignedPayloadTrailer, body.frames);
    case _ =>
  }

  /** After the body: the fixed SHA-256, then the checksums, against finalized digests. */
  method CheckDigests(lib: Library, h: Headers, t: Trailers, s: UploadBodyState, ghost data: bytes)
    returns (r: Result<UploadedBody, UploadError>)
    requires s.InStep(data) && ModeFitsFraming(h)
    requires forall a :: a in s.fed <==> Enabled(h, a)
    ensures r.Ok? <==> RequestAcceptable(lib, h, t) && Genuine(lib, h, t, data)
    ensures r.Ok? ==> r.value == UploadedBody(|data|, lib.digest(Md5, data), EchoValues(h, t))
  {
    hide RequestAcceptable, EchoValues, Supplied, PayloadMode, IsAwsChunked, ModeFitsFraming;
    assert NeedsSha256(h) ==> PayloadMode(h).Some? && PayloadMode(h).value.FixedSha256? && Enabled(h, Sha256);
    assert Enabled(h, Md5);
    hide NeedsSha256, Enabled;
    var digests := s.Digests(lib);
    assert digests == LazyDigests(lib, h, data);
    if NeedsSha256(h) && PayloadMode(h).value.digest != digests[Sha256] { return Err(BadDigest); }
    var request := ParseChecksumRequest(lib, h, t);
    if request.None? { return Err(InvalidRequest); }
    LazyVerdictIsEager(lib, h, t, request.value, data);
    assert Validates(request.value, DigestsOf(lib, data)) <==>
           forall a :: a in request.value.expected ==> request.value.expected[a] == lib.digest(a, data);
    if !Validates(request.value, digests) {
      ghost var a :| a in request.value.expected && request.value.expected[a] != lib.digest(a, data);
      assert Supplied(h, t, a).Some?;
      return Err(BadDigest);
    }
    r := Ok(UploadedBody(s.size, digests[Md5], request.value.echo));
  }

  /**
    An upload is accepted exactly when its body arrived whole and every checksum the
    client supplied is that of the bytes written, unless a write failed; the reported size and
    MD5 are those of the same bytes.
  */
  method WriteUploadBody(
      lib: Library, env: Env, h: Headers, body: Body, w: Writer, signing: Option<Verifier>)
    returns (r: Result<UploadedBody, UploadError>, ghost trailers: Trailers)
    requires w.Intact() && w.written == []
    modifies w
    ensures r.Ok? ==> w.Intact() && BodyArrived(env, h, body, signing, w.written, trailers)
    ensures r.Ok? ==> SignedAsAnnounced(env, h, body, signing, w.written, trailers)
    ensures r.Ok? ==> RequestAcceptable(lib, h, trailers) && Genuine(lib, h, trailers, w.written)
    ensures r.Ok? ==> r.value == UploadedBody(|w.written|, lib.digest(Md5, w.written), EchoValues(h, trailers))
    ensures forall data, t ::
              (w.Intact() && BodyArrived(env, h, body, signing, data, t)
               && RequestAcceptable(lib, h, t) && Genuine(lib, h, t, data)) ==> r.Ok?
  {
    hide RequestAcceptable, Genuine, EchoValues, ModeFitsFraming, IsAwsChunked, SignatureVerifier;
    hide DecodedContentLength, ContentLength, Run, Payload, Flatten, Enabled, SignedAsAnnounced;
    trailers := map[];
    if !ModeFitsFraming(h) { return Err(InvalidRequest), map[]; }
    var s := new UploadBodyState(h);
    var t: Trailers := map[];
    if IsAwsChunked(h) {
      var verifier := SignatureVerifier(h, signing);
      if verifier.None? { return Err(SignatureRejected), map[]; }
      var received := WriteAwsChunkedUploadBody(env, h, body, w, s, verifier.value);
      if received.Err? { return Err(received.error), map[]; }
      t := received.value;
    } else {
      var bad := WritePlainBody(h, body, w, s, env.maxDecodedSize);
      if bad.Some? { return Err(bad.value), map[]; }
    }
    trailers := t;
    ArrivedAsAnnounced(env, h, body, signing, w.written, t);
    r := CheckDigests(lib, h, t, s, w.written);
  }
}
