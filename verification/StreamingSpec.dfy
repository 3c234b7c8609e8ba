/**
  The streaming aws-chunked parser (src/body/upload.rs) as a transition function:
  one `Step` per turn of its loop, `Drain` for one pushed frame, `Run` for a body.
*/
module StreamingSpec {
  import opened Bytes
  import opened AwsChunked
  import opened ChunkSignatures

  datatype ParseError =
    | BadChunkSize(token: bytes)
    | BadExtension(extension: bytes)
    | DuplicateSignature
    | BadSignature
    | MissingTerminator
    | DataAfterFinalTrailer
    | BadTrailer(cause: DecodeError)
    | ControlLineTooLarge
    | NonUtf8Line
    | SignatureDoesNotMatch
    | EntityTooLarge
    | ChunkSizeOverflow
    | EndedUnexpectedly

  datatype Phase = ChunkHeader | ChunkData(size: nat, signature: Option<bytes>) | Trailer | Done

  datatype Header = Header(size: nat, signature: Option<bytes>)

  /** What stays fixed during one upload. */
  datatype Env = Env(crypto: Crypto, maxDecodedSize: nat)

  /**
    Parser state plus the history of verified chunks. The bytes handed to the
    writer so far are `Payload(log)`; the zero chunk is logged with no data.
  */
  datatype Config = Config(
    buffer: bytes, phase: Phase, trailers: Trailers, verifier: Option<Verifier>, log: seq<Chunk>)
  {
    function Feed(x: bytes): Config { this.(buffer := buffer + x) }
  }

  function Fresh(verifier: Option<Verifier>): Config {
    Config([], ChunkHeader, map[], verifier, [])
  }

  const MAX_CONTROL_LINE: nat := 16 * 1024

  const EQUALS: byte := 61
  const CHUNK_SIGNATURE: bytes := Ascii("chunk-signature")

  predicate LowerHex64(s: bytes) {
    |s| == 64 && forall i :: 0 <= i < |s| ==> 48 <= s[i] <= 57 || 97 <= s[i] <= 102
  }

  /** The chunk-signature among the `;`-separated extensions of a header line. */
  function ReadExtensions(extensions: seq<bytes>, signature: Option<bytes>): (r: Result<Option<bytes>, ParseError>)
    ensures r.Err? ==> r.error.BadExtension? || r.error.DuplicateSignature? || r.error.BadSignature?
  {
    if extensions == [] then Ok(signature)
    else if Trim(extensions[0]) == [] then ReadExtensions(extensions[1..], signature)
    else match SplitOnce(extensions[0], EQUALS)
      case None => Err(BadExtension(extensions[0]))
      case Some((name, value)) =>
        if Lower(Trim(name)) != CHUNK_SIGNATURE then ReadExtensions(extensions[1..], signature)
        else if signature.Some? then Err(DuplicateSignature)
        else if !LowerHex64(Trim(value)) then Err(BadSignature)
        else ReadExtensions(extensions[1..], Some(Trim(value)))
  }

  function Extensions(line: bytes): seq<bytes> {
    match SplitOnce(line, SEMICOLON)
    case None => Split([], SEMICOLON)
    case Some((_, rest)) => Split(rest, SEMICOLON)
  }

  function ParseHeader(line: bytes): (r: Result<Header, ParseError>)
    ensures r.Err? ==> r.error != ControlLineTooLarge
  {
    match ParseSize(line)
    case None => Err(BadChunkSize(SizeToken(line)))
    case Some(size) =>
      match ReadExtensions(Extensions(line), None)
      case Err(e) => Err(e)
      case Ok(signature) => Ok(Header(size, signature))
  }

  // -------------------------------------------------------------------- one step

  datatype LineResult = NoLine | BadLine(error: ParseError) | Line(line: bytes, rest: bytes)

  function TakeLine(buffer: bytes): LineResult {
    match FindCrlf(buffer)
    case None => if |buffer| > MAX_CONTROL_LINE then BadLine(ControlLineTooLarge) else NoLine
    case Some(i) =>
      if Utf8Valid(buffer[..i]) then Line(buffer[..i], buffer[i + 2..]) else BadLine(NonUtf8Line)
  }

  datatype StepResult = Wait | Continue(next: Config) | Finish(end: Config) | Fail(error: ParseError)

  function VerifyChunk(env: Env, verifier: Option<Verifier>, chunk: Chunk): Result<Option<Verifier>, ParseError> {
    match verifier
    case None => Ok(None)
    case Some(v) =>
      match Verify(env.crypto, v, chunk)
      case None => Err(SignatureDoesNotMatch)
      case Some(next) => Ok(Some(next))
  }

  function VerifyTrailers(
      env: Env, verifier: Option<Verifier>, trailers: Trailers): Result<Option<Verifier>, ParseError>
  {
    match verifier
    case None => Ok(None)
    case Some(v) =>
      match VerifyTrailer(env.crypto, v, trailers)
      case None => Err(SignatureDoesNotMatch)
      case Some(next) => Ok(Some(next))
  }

  function HeaderStep(env: Env, c: Config): (r: StepResult)
    ensures !r.Finish?
  {
    match TakeLine(c.buffer)
    case NoLine => Wait
    case BadLine(e) => Fail(e)
    case Line(line, rest) =>
      match ParseHeader(line)
      case Err(e) => Fail(e)
      case Ok(h) =>
        if h.size != 0 then Continue(c.(buffer := rest, phase := ChunkData(h.size, h.signature)))
        else
          var chunk := Chunk([], h.signature);
          match VerifyChunk(env, c.verifier, chunk)
          case Err(e) => Fail(e)
          case Ok(v) => Continue(c.(buffer := rest, phase := Trailer, verifier := v, log := c.log + [chunk]))
  }

  function DataStep(env: Env, c: Config): (r: StepResult)
    requires c.phase.ChunkData?
    ensures !r.Finish?
  {
    var size := c.phase.size;
    if size + 2 > USIZE_MAX then Fail(ChunkSizeOverflow)
    else if |c.buffer| < size + 2 then Wait
    else if c.buffer[size..size + 2] != CRLF then Fail(MissingTerminator)
    else
      var chunk := Chunk(c.buffer[..size], c.phase.signature);
      match VerifyChunk(env, c.verifier, chunk)
      case Err(e) => Fail(e)
      case Ok(v) =>
        if SaturatingAdd(|Payload(c.log)|, size) > env.maxDecodedSize then Fail(EntityTooLarge)
        else Continue(c.(buffer := c.buffer[size + 2..], phase := ChunkHeader, verifier := v, log := c.log + [chunk]))
  }

  function TrailerStep(env: Env, c: Config): (r: StepResult)
    ensures r.Continue? ==> r.next.phase == c.phase
  {
    match TakeLine(c.buffer)
    case NoLine => Wait
    case BadLine(e) => Fail(e)
    case Line(line, rest) =>
      if line == [] then
        match VerifyTrailers(env, c.verifier, c.trailers)
        case Err(e) => Fail(e)
        case Ok(v) =>
          if rest != [] then Fail(DataAfterFinalTrailer)
          else Finish(c.(buffer := rest, phase := Done, verifier := v))
      else
        match AddTrailer(c.trailers, line)
        case Err(e) => Fail(BadTrailer(e))
        case Ok(more) => Continue(c.(buffer := rest, trailers := more))
  }

  function Step(env: Env, c: Config): (r: StepResult)
    ensures r.Continue? ==> |r.next.buffer| + 2 <= |c.buffer| && r.next.phase != Done
  {
    match c.phase
    case ChunkHeader => HeaderStep(env, c)
    case ChunkData(_, _) => DataStep(env, c)
    case Trailer => TrailerStep(env, c)
    case Done => if c.buffer == [] then Finish(c) else Fail(DataAfterFinalTrailer)
  }

  // ------------------------------------------------------------- frames and bodies

  /** What one push leaves behind; a failed push keeps the state of its last good step. */
  datatype Outcome = More(config: Config) | Finished(config: Config) | Failed(error: ParseError, config: Config)

  function Drain(env: Env, c: Config): Outcome
    decreases |c.buffer|
  {
    match Step(env, c)
    case Wait => More(c)
    case Fail(e) => Failed(e, c)
    case Finish(end) => Finished(end)
    case Continue(next) => Drain(env, next)
  }

  /** A whole body, frame by frame; frames after the end of the body are never pulled. */
  function Run(env: Env, c: Config, frames: seq<bytes>): Outcome
    decreases |frames|
  {
    if frames == [] then Failed(EndedUnexpectedly, c)
    else match Drain(env, c.Feed(frames[0]))
      case More(next) => Run(env, next, frames[1..])
      case o => o
  }
}
