/**
  The one-shot aws-chunked decoder (src/body/aws_chunked.rs): a bounded buffer in,
  payload and trailers out. It is the reference the streaming parser must refine.
*/
module AwsChunked {
  import opened Bytes

  type Trailers = map<bytes, bytes>

  datatype DecodeError =
    | UnexpectedEndOfBody
    | InvalidChunkSize(token: bytes)
    | MissingChunkTerminator
    | NonUtf8ControlLine
    | MalformedTrailer(line: bytes)
    | DuplicateTrailer(name: bytes)
    | SizeOverflow  // `size + 2` does not fit usize

  /** Payload, trailers, and the bytes after the final trailer, which the decoder never reads. */
  datatype Decoded = Decoded(data: bytes, trailers: Trailers, rest: bytes)

  datatype DecodedAwsChunkedBody = DecodedAwsChunkedBody(data: bytes, trailers: Trailers)

  const SEMICOLON: byte := 59
  const COLON: byte := 58

  /** The size token of a chunk header line: what precedes ';', trimmed. */
  function SizeToken(line: bytes): bytes {
    match SplitOnce(line, SEMICOLON)
    case None => Trim(line)
    case Some((size, _)) => Trim(size)
  }

  function ParseSize(line: bytes): (r: Option<nat>)
    ensures r.Some? ==> r.value <= USIZE_MAX
  {
    ParseUnsigned(SizeToken(line), 16, USIZE_MAX)
  }

  /** The first control line of `b` and what follows its CR LF. */
  function ReadLine(b: bytes): (r: Result<(bytes, bytes), DecodeError>)
    ensures r.Ok? ==> b == r.value.0 + CRLF + r.value.1
    ensures r.Ok? ==> FindCrlf(b) == Some(|r.value.0|) && Utf8Valid(r.value.0)
  {
    match FindCrlf(b)
    case None => Err(UnexpectedEndOfBody)
    case Some(i) =>
      if Utf8Valid(b[..i]) then
        assert b == b[..i] + CRLF + b[i + 2..];
        Ok((b[..i], b[i + 2..]))
      else Err(NonUtf8ControlLine)
  }

  /** One trailer line added to the trailers read so far. */
  function AddTrailer(trailers: Trailers, line: bytes): Result<Trailers, DecodeError> {
    match SplitOnce(line, COLON)
    case None => Err(MalformedTrailer(line))
    case Some((name, value)) =>
      var key := Lower(Trim(name));
      if key in trailers then Err(DuplicateTrailer(key)) else Ok(trailers[key := Trim(value)])
  }

  function DecodeTrailers(b: bytes, data: bytes, trailers: Trailers): Result<Decoded, DecodeError>
    decreases |b|
  {
    match ReadLine(b)
    case Err(e) => Err(e)
    case Ok((line, rest)) =>
      if line == [] then Ok(Decoded(data, trailers, rest))
      else match AddTrailer(trailers, line)
        case Err(e) => Err(e)
        case Ok(more) => DecodeTrailers(rest, data, more)
  }

  /** The payload of a chunk of `size` bytes at the head of `b`, and what follows its terminator. */
  function TakeChunk(b: bytes, size: nat): (r: Result<(bytes, bytes), DecodeError>)
    ensures r.Ok? ==> b == r.value.0 + CRLF + r.value.1 && |r.value.0| == size
  {
    if size + 2 > USIZE_MAX then Err(SizeOverflow)
    else if |b| < size + 2 then Err(UnexpectedEndOfBody)
    else if b[size..size + 2] != CRLF then Err(MissingChunkTerminator)
    else
      assert b == b[..size] + b[size..size + 2] + b[size + 2..];
      Ok((b[..size], b[size + 2..]))
  }

  /** What decoding `b` from a chunk header yields, `data` having been decoded before. */
  function DecodeChunks(b: bytes, data: bytes): Result<Decoded, DecodeError>
    decreases |b|
  {
    match ReadLine(b)
    case Err(e) => Err(e)
    case Ok((line, rest)) =>
      match ParseSize(line)
      case None => Err(InvalidChunkSize(SizeToken(line)))
      case Some(size) =>
        if size == 0 then DecodeTrailers(rest, data, map[])
        else match TakeChunk(rest, size)
          case Err(e) => Err(e)
          case Ok((chunk, after)) => DecodeChunks(after, data + chunk)
  }

  function Decode(encoded: bytes): Result<Decoded, DecodeError> {
    DecodeChunks(encoded, [])
  }

  function WithoutRest(r: Result<Decoded, DecodeError>): Result<DecodedAwsChunkedBody, DecodeError> {
    match r
    case Err(e) => Err(e)
    case Ok(d) => Ok(DecodedAwsChunkedBody(d.data, d.trailers))
  }

  // ------------------------------------------------ the decoder as it is written

  method ReadCrlfLine(encoded: bytes, cursor: nat)
    returns (r: Result<bytes, DecodeError>, next: nat)
    requires cursor <= |encoded|
    ensures cursor <= next <= |encoded|
    ensures match ReadLine(encoded[cursor..])
            case Err(e) => r == Err(e)
            case Ok((line, rest)) => r == Ok(line) && rest == encoded[next..] && next >= cursor + 2
  {
    var remaining := encoded[cursor..];
    next := cursor;
    match FindCrlf(remaining) {
      case None => r := Err(UnexpectedEndOfBody);
      case Some(offset) =>
        var line := remaining[..offset];
        if Utf8Valid(line) {
          r := Ok(line);
          next := cursor + offset + 2;
          assert remaining[offset + 2..] == encoded[next..];
        } else {
          r := Err(NonUtf8ControlLine);
        }
    }
  }

  method ReadTrailers(encoded: bytes, start: nat, ghost data: bytes)
    returns (r: Result<Trailers, DecodeError>)
    requires start <= |encoded|
    ensures match DecodeTrailers(encoded[start..], data, map[])
            case Err(e) => r == Err(e)
            case Ok(d) => r == Ok(d.trailers) && d.data == data
  {
    var cursor := start;
    var trailers: Trailers := map[];
    while true
      invariant cursor <= |encoded|
      invariant DecodeTrailers(encoded[start..], data, map[]) == DecodeTrailers(encoded[cursor..], data, trailers)
      decreases |encoded| - cursor
    {
      var line, next := ReadCrlfLine(encoded, cursor);
      if line.Err? { return Err(line.error); }
      if line.value == [] { return Ok(trailers); }
      match SplitOnce(line.value, COLON) {
        case None => return Err(MalformedTrailer(line.value));
        case Some((name, value)) =>
          var key := Lower(Trim(name));
          if key in trailers { return Err(DuplicateTrailer(key)); }
          trailers := trailers[key := Trim(value)];
      }
      cursor := next;
    }
  }

  method ReadChunk(encoded: bytes, cursor: nat, size: nat)
    returns (r: Result<bytes, DecodeError>, next: nat)
    requires cursor <= |encoded|
    ensures cursor <= next <= |encoded|
    ensures match TakeChunk(encoded[cursor..], size)
            case Err(e) => r == Err(e)
            case Ok((chunk, after)) => r == Ok(chunk) && after == encoded[next..] && next >= cursor + 2
  {
    next := cursor;
    if size + 2 > USIZE_MAX { return Err(SizeOverflow), next; }
    if |encoded| - cursor < size + 2 { return Err(UnexpectedEndOfBody), next; }
    ghost var rest := encoded[cursor..];
    assert rest[size..size + 2] == encoded[cursor + size..cursor + size + 2];
    if encoded[cursor + size..cursor + size + 2] != CRLF { return Err(MissingChunkTerminator), next; }
    next := cursor + size + 2;
    assert rest[..size] == encoded[cursor..cursor + size];
    assert rest[size + 2..] == encoded[next..];
    r := Ok(encoded[cursor..cursor + size]);
  }

  /** The decoding loop computes `Decode`: same data, trailers and errors on every buffer. */
  method DecodeAwsChunkedBody(encoded: bytes) returns (r: Result<DecodedAwsChunkedBody, DecodeError>)
    ensures r == WithoutRest(Decode(encoded))
  {
    var cursor := 0;
    var data: bytes := [];
    assert encoded[0..] == encoded;
    while true
      invariant cursor <= |encoded|
      invariant Decode(encoded) == DecodeChunks(encoded[cursor..], data)
      decreases |encoded| - cursor
    {
      var line, next := ReadCrlfLine(encoded, cursor);
      if line.Err? { return Err(line.error); }
      var token := SizeToken(line.value);
      var size := ParseUnsigned(token, 16, USIZE_MAX);
      if size.None? { return Err(InvalidChunkSize(token)); }
      cursor := next;
      if size.value == 0 {
        var trailers := ReadTrailers(encoded, cursor, data);
        if trailers.Err? { return Err(trailers.error); }
        return Ok(DecodedAwsChunkedBody(data, trailers.value));
      }
      var chunk, after := ReadChunk(encoded, cursor, size.value);
      if chunk.Err? { return Err(chunk.error); }
      data := data + chunk.value;
      cursor := after;
    }
  }

  // --------------------------------------- the decoder only reads what it consumes

  lemma ReadLineStable(b: bytes, x: bytes)
    requires FindCrlf(b).Some?
    ensures match ReadLine(b)
            case Err(e) => ReadLine(b + x) == Err(e)
            case Ok((line, rest)) => ReadLine(b + x) == Ok((line, rest + x))
  {
    FindCrlfStable(b, x);
    var i := FindCrlf(b).value;
    assert (b + x)[..i] == b[..i];
    assert (b + x)[i + 2..] == b[i + 2..] + x;
  }

  lemma TakeChunkStable(b: bytes, size: nat, x: bytes)
    requires |b| >= size + 2
    ensures match TakeChunk(b, size)
            case Err(e) => TakeChunk(b + x, size) == Err(e)
            case Ok((chunk, after)) => TakeChunk(b + x, size) == Ok((chunk, after + x))
  {
    assert (b + x)[size..size + 2] == b[size..size + 2];
    assert (b + x)[..size] == b[..size];
    assert (b + x)[size + 2..] == b[size + 2..] + x;
  }

  lemma {:induction false} DecodeTrailersStable(b: bytes, data: bytes, trailers: Trailers, x: bytes)
    requires DecodeTrailers(b, data, trailers).Ok?
    ensures var d := DecodeTrailers(b, data, trailers).value;
            DecodeTrailers(b + x, data, trailers) == Ok(d.(rest := d.rest + x))
    decreases |b|
  {
    ReadLineStable(b, x);
    var (line, rest) := ReadLine(b).value;
    if line != [] {
      DecodeTrailersStable(rest, data, AddTrailer(trailers, line).value, x);
    }
  }

  /** Bytes after an accepted body change nothing but the unread rest. */
  lemma {:induction false} DecodeStable(b: bytes, data: bytes, x: bytes)
    requires DecodeChunks(b, data).Ok?
    ensures var d := DecodeChunks(b, data).value;
            DecodeChunks(b + x, data) == Ok(d.(rest := d.rest + x))
    decreases |b|
  {
    ReadLineStable(b, x);
    var (line, rest) := ReadLine(b).value;
    var size := ParseSize(line).value;
    if size == 0 {
      DecodeTrailersStable(rest, data, map[], x);
    } else {
      var (chunk, after) := TakeChunk(rest, size).value;
      TakeChunkStable(rest, size, x);
      DecodeStable(after, data + chunk, x);
    }
  }
}
