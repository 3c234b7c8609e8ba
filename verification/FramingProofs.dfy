/**
  Exactly which bodies the streaming parser accepts under every framing.
*/
module FramingProofs {
  import opened Bytes
  import opened AwsChunked
  import opened ChunkSignatures
  import opened StreamingSpec
  import opened StreamingProofs

  // ----------------------------------------------------- control lines of a body

  /** The chunk header lines the one-shot decoder reads. */
  function HeaderLines(b: bytes): seq<bytes>
    decreases |b|
  {
    match ReadLine(b)
    case Err(_) => []
    case Ok((line, rest)) =>
      match ParseSize(line)
      case None => [line]
      case Some(size) =>
        if size == 0 then [line]
        else match TakeChunk(rest, size)
          case Err(_) => [line]
          case Ok((_, after)) => [line] + HeaderLines(after)
  }

  /** The lines of a trailer section, the closing empty line excluded. */
  function SectionLines(b: bytes): seq<bytes>
    decreases |b|
  {
    match ReadLine(b)
    case Err(_) => []
    case Ok((line, rest)) => if line == [] then [] else [line] + SectionLines(rest)
  }

  /** The trailer lines the one-shot decoder reads. */
  function BodyTrailerLines(b: bytes): seq<bytes>
    decreases |b|
  {
    match ReadLine(b)
    case Err(_) => []
    case Ok((line, rest)) =>
      match ParseSize(line)
      case None => []
      case Some(size) =>
        if size == 0 then SectionLines(rest)
        else match TakeChunk(rest, size)
          case Err(_) => []
          case Ok((_, after)) => BodyTrailerLines(after)
  }

  /** At most 16383 bytes: with its terminator not yet complete it does not overfill the buffer. */
  predicate ShortLine(line: bytes) { |line| <= 16383 }

  /** Extensions well formed, and short enough to fit the buffer bound. */
  predicate GoodHeaders(lines: seq<bytes>) {
    forall i :: 0 <= i < |lines| ==> ShortLine(lines[i]) && ParseHeader(lines[i]).Ok?
  }

  predicate ShortLines(lines: seq<bytes>) {
    forall i :: 0 <= i < |lines| ==> ShortLine(lines[i])
  }

  // --------------------------------------------------------- lines still to come

  function HeadersAhead(c: Config): seq<bytes> {
    match c.phase
    case ChunkHeader => HeaderLines(c.buffer)
    case ChunkData(size, _) =>
      (match TakeChunk(c.buffer, size)
       case Err(_) => []
       case Ok((_, after)) => HeaderLines(after))
    case _ => []
  }

  function TrailersAhead(c: Config): seq<bytes> {
    match c.phase
    case ChunkHeader => BodyTrailerLines(c.buffer)
    case ChunkData(size, _) =>
      (match TakeChunk(c.buffer, size)
       case Err(_) => []
       case Ok((_, after)) => BodyTrailerLines(after))
    case Trailer => SectionLines(c.buffer)
    case Done => []
  }

  predicate WithinLimit(env: Env, size: nat) {
    SaturatingAdd(0, size) <= env.maxDecodedSize
  }

  /** The rest of the body decodes completely, obeys the line rules, and fits the limit. */
  predicate Acceptable(env: Env, c: Config, d: bytes, t: Trailers) {
    && Coherent(c)
    && Residual(c) == Ok(Decoded(d, t, []))
    && GoodHeaders(HeadersAhead(c))
    && ShortLines(TrailersAhead(c))
    && WithinLimit(env, |d|)
  }

  lemma {:induction false} DecodeExtendsData(b: bytes, data: bytes)
    requires DecodeChunks(b, data).Ok?
    ensures |data| <= |DecodeChunks(b, data).value.data|
    decreases |b|
  {
    hide DecodeTrailers;
    var (line, rest) := ReadLine(b).value;
    var size := ParseSize(line).value;
    if size == 0 {
      TrailersKeepData(rest, data, map[]);
    } else {
      var (chunk, after) := TakeChunk(rest, size).value;
      DecodeExtendsData(after, data + chunk);
    }
  }

  lemma {:induction false} TrailersKeepData(b: bytes, data: bytes, t: Trailers)
    requires DecodeTrailers(b, data, t).Ok?
    ensures DecodeTrailers(b, data, t).value.data == data
    decreases |b|
  {
    var (line, rest) := ReadLine(b).value;
    if line != [] { TrailersKeepData(rest, data, AddTrailer(t, line).value); }
  }

  lemma LineIsTaken(b: bytes)
    requires ReadLine(b).Ok?
    ensures TakeLine(b) == Line(ReadLine(b).value.0, ReadLine(b).value.1)
  {}

  /** A header step reads one header line and leaves the others ahead. */
  lemma HeaderStepLines(env: Env, c: Config)
    requires c.phase == ChunkHeader && HeaderStep(env, c).Continue?
    ensures TakeLine(c.buffer).Line?
    ensures var n := HeaderStep(env, c).next; var line := TakeLine(c.buffer).line;
            HeadersAhead(c) == [line] + HeadersAhead(n) && TrailersAhead(c) == TrailersAhead(n)
            && ParseHeader(line).Ok?
  {
    hide ReadExtensions, Extensions, SizeToken, Utf8Valid, SectionLines, VerifyChunk;
    var line, rest := TakeLine(c.buffer).line, TakeLine(c.buffer).rest;
    assert ReadLine(c.buffer) == Ok((line, rest));
    assert ParseSize(line) == Some(ParseHeader(line).value.size);
  }

  lemma TrailerStepLines(env: Env, c: Config)
    requires c.phase == Trailer && TrailerStep(env, c).Continue?
    ensures TakeLine(c.buffer).Line?
    ensures var n := TrailerStep(env, c).next;
            TrailersAhead(c) == [TakeLine(c.buffer).line] + TrailersAhead(n)
  {
    hide AddTrailer, Utf8Valid;
    assert ReadLine(c.buffer) == Ok((TakeLine(c.buffer).line, TakeLine(c.buffer).rest));
  }

  lemma HeaderContinues(env: Env, c: Config)
    requires c.verifier.None? && ReadLine(c.buffer).Ok? && ParseHeader(ReadLine(c.buffer).value.0).Ok?
    ensures HeaderStep(env, c).Continue?
  {
    LineIsTaken(c.buffer);
  }

  lemma HeaderAccepts(env: Env, c: Config, d: bytes, t: Trailers)
    requires c.phase == ChunkHeader && c.verifier.None? && Acceptable(env, c, d, t)
    ensures HeaderStep(env, c).Continue? && Acceptable(env, HeaderStep(env, c).next, d, t)
  {
    hide ParseHeader, Utf8Valid, HeaderStep, BodyTrailerLines;
    var lines := HeadersAhead(c);
    assert lines[0] == ReadLine(c.buffer).value.0;
    HeaderContinues(env, c);
    HeaderStepLines(env, c);
    HeaderStepDecodes(env, c);
    hide DecodeChunks, HeaderLines;
    var n := HeaderStep(env, c).next;
    assert HeadersAhead(n) == lines[1..];
  }

  lemma DataAccepts(env: Env, c: Config, d: bytes, t: Trailers)
    requires c.phase.ChunkData? && c.verifier.None? && Acceptable(env, c, d, t)
    ensures DataStep(env, c).Continue? && Acceptable(env, DataStep(env, c).next, d, t)
  {
    hide HeaderLines, BodyTrailerLines;
    var (chunk, after) := TakeChunk(c.buffer, c.phase.size).value;
    DecodeExtendsData(after, Payload(c.log) + chunk);
    hide DecodeChunks;
    assert DataStep(env, c).Continue?;
    DataStepDecodes(env, c);
  }

  lemma TrailerAccepts(env: Env, c: Config, d: bytes, t: Trailers)
    requires c.phase == Trailer && c.verifier.None? && Acceptable(env, c, d, t)
    ensures match TrailerStep(env, c)
            case Continue(n) => Acceptable(env, n, d, t)
            case Finish(end) => Payload(end.log) == d && end.trailers == t
            case _ => false
  {
    hide Utf8Valid, Payload;
    var (line, rest) := ReadLine(c.buffer).value;
    LineIsTaken(c.buffer);
    TrailerStepDecodes(env, c);
    if line != [] {
      TrailerStepLines(env, c);
      assert TrailersAhead(c)[1..] == TrailersAhead(TrailerStep(env, c).next);
    }
  }

  /** An acceptable body never makes the parser wait or fail. */
  lemma StepAccepts(env: Env, c: Config, d: bytes, t: Trailers)
    requires c.verifier.None? && c.phase != Done && Acceptable(env, c, d, t)
    ensures match Step(env, c)
            case Continue(n) => Acceptable(env, n, d, t) && n.verifier.None?
            case Finish(end) => Payload(end.log) == d && end.trailers == t
            case _ => false
  {
    hide Acceptable;
    match c.phase
    case ChunkHeader => HeaderAccepts(env, c, d, t);
    case ChunkData(_, _) => DataAccepts(env, c, d, t);
    case Trailer => TrailerAccepts(env, c, d, t);
  }

  // ------------------------------------------------- acceptance of every framing

  /** The first line of an acceptable body is short, so a cut inside it is not an error. */
  lemma NoCutIsTooLong(env: Env, c: Config, x: bytes, d: bytes, t: Trailers)
    requires Acceptable(env, c.Feed(x), d, t) && (c.phase == ChunkHeader || c.phase == Trailer)
    ensures TakeLine(c.buffer) != BadLine(ControlLineTooLarge)
  {
    hide Utf8Valid;
    var b := c.buffer + x;
    assert ReadLine(b).Ok? by { assert Residual(c.Feed(x)).Ok?; }
    var (line, _) := ReadLine(b).value;
    assert ShortLine(line) by {
      if c.phase == ChunkHeader { assert HeaderLines(b)[0] == line; }
      else if line != [] { assert SectionLines(b)[0] == line; }
    }
    if |c.buffer| > MAX_CONTROL_LINE {
      assert CrlfAt(b, |line|);
      assert CrlfAt(c.buffer, |line|);
    }
  }

  lemma TooLargeIsALine(env: Env, c: Config)
    requires Step(env, c) == Fail(ControlLineTooLarge)
    ensures c.phase == ChunkHeader || c.phase == Trailer
    ensures TakeLine(c.buffer) == BadLine(ControlLineTooLarge)
  {
    hide ParseHeader, AddTrailer, Utf8Valid;
  }

  /** Cutting an acceptable body anywhere leaves an acceptable rest. */
  lemma {:induction false} PrefixAccepts(env: Env, c: Config, x: bytes, d: bytes, t: Trailers)
    requires c.verifier.None? && c.phase != Done && Acceptable(env, c.Feed(x), d, t)
    ensures match Drain(env, c)
            case More(n) => Acceptable(env, n.Feed(x), d, t) && n.verifier.None? && n.phase != Done
            case Finished(end) => x == [] && Payload(end.log) == d && end.trailers == t
            case Failed(_, _) => false
    decreases |c.buffer|
  {
    hide Acceptable, Step, Payload;
    StepAccepts(env, c.Feed(x), d, t);
    match Step(env, c)
    case Wait =>
    case Fail(e) =>
      if e == ControlLineTooLarge {
        TooLargeIsALine(env, c);
        NoCutIsTooLong(env, c, x, d, t);
      } else {
        FailureIsFinal(env, c, x);
      }
    case Finish(_) =>
      if x != [] { NothingFollowsTheEnd(env, c, x); }
      assert c.buffer + [] == c.buffer;
    case Continue(n) =>
      StepFeedsOn(env, c, x);
      PrefixAccepts(env, n, x, d, t);
  }

  predicate Accepts(env: Env, c: Config, frames: seq<bytes>, d: bytes, t: Trailers) {
    var r := Run(env, c, frames);
    r.Finished? && Payload(r.config.log) == d && r.config.trailers == t
  }

  lemma {:induction false} EveryFramingAccepts(env: Env, c: Config, frames: seq<bytes>, d: bytes, t: Trailers)
    requires c.verifier.None? && c.phase != Done && frames != []
    requires Acceptable(env, c.Feed(Flatten(frames)), d, t)
    ensures Accepts(env, c, frames, d, t)
    decreases |frames|
  {
    hide Acceptable;
    var rest := Flatten(frames[1..]);
    FeedTwice(c, frames[0], rest);
    PrefixAccepts(env, c.Feed(frames[0]), rest, d, t);
    match Drain(env, c.Feed(frames[0]))
    case Finished(_) =>
    case More(n) =>
      if frames[1..] == [] {
        assert n.buffer + rest == n.buffer;
        MoreWaits(env, c.Feed(frames[0]));
        StepAccepts(env, n, d, t);
      } else {
        EveryFramingAccepts(env, n, frames[1..], d, t);
      }
  }

  lemma {:induction false} MoreWaits(env: Env, c: Config)
    requires Drain(env, c).More?
    ensures Step(env, Drain(env, c).config).Wait?
    decreases |c.buffer|
  {
    if Step(env, c).Continue? { MoreWaits(env, Step(env, c).next); }
  }

  // -------------------------------------------------- and nothing else is accepted

  lemma DataStepLines(env: Env, c: Config)
    requires c.phase.ChunkData? && DataStep(env, c).Continue?
    ensures HeadersAhead(c) == HeadersAhead(DataStep(env, c).next)
    ensures TrailersAhead(c) == TrailersAhead(DataStep(env, c).next)
    ensures WithinLimit(env, |Payload(DataStep(env, c).next.log)|)
  {
    var size := c.phase.size;
    assert TakeChunk(c.buffer, size) == Ok((c.buffer[..size], c.buffer[size + 2..]));
    PayloadAppend(c.log, Chunk(c.buffer[..size], c.phase.signature));
  }

  lemma HeaderStepPayload(env: Env, c: Config)
    requires HeaderStep(env, c).Continue?
    ensures |Payload(HeaderStep(env, c).next.log)| == |Payload(c.log)|
  {
    hide ReadExtensions, Extensions, SizeToken, Utf8Valid;
    PayloadAppend(c.log, Chunk([], ParseHeader(TakeLine(c.buffer).line).value.signature));
  }

  /** What finished had well-formed headers and stayed within the limit. */
  lemma {:induction false} FinishedIsGood(env: Env, c: Config)
    requires Drain(env, c).Finished? && WithinLimit(env, |Payload(c.log)|)
    ensures WithinLimit(env, |Payload(Drain(env, c).config.log)|)
    ensures forall i :: 0 <= i < |HeadersAhead(c)| ==> ParseHeader(HeadersAhead(c)[i]).Ok?
    decreases |c.buffer|
  {
    hide HeaderStep, DataStep, ParseHeader, Payload, HeaderLines, WithinLimit;
    match Step(env, c)
    case Continue(n) =>
      var read := if c.phase == ChunkHeader then 1 else 0;
      assert WithinLimit(env, |Payload(n.log)|) && HeadersAhead(n) == HeadersAhead(c)[read..] by {
        match c.phase
        case ChunkHeader => HeaderStepLines(env, c); HeaderStepPayload(env, c);
        case ChunkData(_, _) => DataStepLines(env, c);
        case _ =>
      }
      FinishedIsGood(env, n);
      if c.phase == ChunkHeader { HeaderStepLines(env, c); }
    case _ =>
  }

  /** A parse about to read an over-long line fails when cut inside that line. */
  lemma CutInLongLine(env: Env, c: Config)
    requires c.phase == ChunkHeader || c.phase == Trailer
    requires TakeLine(c.buffer).Line? && !ShortLine(TakeLine(c.buffer).line)
    ensures |c.buffer| > MAX_CONTROL_LINE
    ensures Drain(env, c.(buffer := c.buffer[..MAX_CONTROL_LINE + 1])).Failed?
  {
    var line := TakeLine(c.buffer).line;
    var p := c.buffer[..MAX_CONTROL_LINE + 1];
    forall j | 0 <= j ensures !CrlfAt(p, j) {
      if CrlfAt(p, j) { assert CrlfAt(c.buffer, j); }
    }
    assert FindCrlf(p).None?;
  }

  lemma {:induction false} LongLineCut(env: Env, c: Config) returns (k: nat)
    requires Drain(env, c).Finished?
    requires LongAhead(c)
    ensures k <= |c.buffer| && Drain(env, c.(buffer := c.buffer[..k])).Failed?
    decreases |c.buffer|
  {
    hide Step, HeadersAhead, TrailersAhead, TakeLine;
    var line := TakeLine(c.buffer);
    if (c.phase == ChunkHeader || c.phase == Trailer) && line.Line? && !ShortLine(line.line) {
      CutInLongLine(env, c);
      k := MAX_CONTROL_LINE + 1;
    } else {
      NextStillLong(env, c);
      var n := Step(env, c).next;
      var later := LongLineCut(env, n);
      var consumed := |c.buffer| - |n.buffer|;
      k := consumed + later;
      StepLocal(env, c, n.buffer[..later]);
      assert c.buffer[..k] == c.buffer[..consumed] + n.buffer[..later];
    }
  }

  lemma LastSectionIsEmpty(env: Env, c: Config)
    requires TrailerStep(env, c).Finish?
    ensures SectionLines(c.buffer) == []
  {
    assert ReadLine(c.buffer) == Ok(([], []));
  }

  lemma RestStillLong(all: seq<bytes>, first: bytes, rest: seq<bytes>)
    requires all == [first] + rest && ShortLine(first) && !ShortLines(all)
    ensures !ShortLines(rest)
  {
    assert forall i :: 0 <= i < |rest| ==> all[i + 1] == rest[i];
  }

  predicate LongAhead(c: Config) { !ShortLines(HeadersAhead(c)) || !ShortLines(TrailersAhead(c)) }

  lemma HeaderStillLong(env: Env, c: Config)
    requires c.phase == ChunkHeader && HeaderStep(env, c).Continue? && LongAhead(c)
    requires TakeLine(c.buffer).Line? ==> ShortLine(TakeLine(c.buffer).line)
    ensures LongAhead(HeaderStep(env, c).next)
  {
    hide HeadersAhead, TrailersAhead, HeaderStep, ParseHeader, ShortLines, ShortLine;
    HeaderStepLines(env, c);
    if !ShortLines(HeadersAhead(c)) {
      RestStillLong(HeadersAhead(c), TakeLine(c.buffer).line, HeadersAhead(HeaderStep(env, c).next));
    }
  }

  lemma TrailerStillLong(env: Env, c: Config)
    requires c.phase == Trailer && LongAhead(c)
    requires TrailerStep(env, c).Continue? || TrailerStep(env, c).Finish?
    requires TakeLine(c.buffer).Line? ==> ShortLine(TakeLine(c.buffer).line)
    ensures TrailerStep(env, c).Continue? && LongAhead(TrailerStep(env, c).next)
  {
    assert ShortLines(HeadersAhead(c));
    if TrailerStep(env, c).Finish? {
      LastSectionIsEmpty(env, c);
    } else {
      hide TrailersAhead, TrailerStep, ShortLines, ShortLine;
      TrailerStepLines(env, c);
      RestStillLong(TrailersAhead(c), TakeLine(c.buffer).line, TrailersAhead(TrailerStep(env, c).next));
    }
  }

  lemma NextStillLong(env: Env, c: Config)
    requires Drain(env, c).Finished? && LongAhead(c)
    requires c.phase == ChunkHeader || c.phase == Trailer ==>
               TakeLine(c.buffer).Line? ==> ShortLine(TakeLine(c.buffer).line)
    ensures Step(env, c).Continue?
    ensures Drain(env, Step(env, c).next).Finished?
    ensures LongAhead(Step(env, c).next)
  {
    hide HeaderStep, DataStep, TrailerStep, TakeLine, HeaderLines, BodyTrailerLines;
    match c.phase
    case ChunkHeader => hide LongAhead; HeaderStillLong(env, c);
    case Trailer => hide LongAhead; TrailerStillLong(env, c);
    case ChunkData(_, _) => DataStepLines(env, c);
    case Done =>
  }

  /** The conditions under which no framing of `b` can be refused. */
  predicate FramingSafe(env: Env, b: bytes, d: bytes, t: Trailers) {
    && Decode(b) == Ok(Decoded(d, t, []))
    && GoodHeaders(HeaderLines(b))
    && ShortLines(BodyTrailerLines(b))
    && WithinLimit(env, |d|)
  }

  lemma OneFrame(env: Env, c: Config, b: bytes, d: bytes, t: Trailers)
    requires Accepts(env, c, [b], d, t)
    ensures var r := Drain(env, c.Feed(b)); r.Finished? && Payload(r.config.log) == d && r.config.trailers == t
  {
    hide Drain;
    assert [b][1..] == [];
    assert Run(env, c, [b]) == match Drain(env, c.Feed(b)) case More(n) => Run(env, n, []) case o => o;
  }

  lemma TwoFrames(env: Env, c: Config, x: bytes, y: bytes, d: bytes, t: Trailers)
    requires Drain(env, c.Feed(x)).Failed?
    ensures Flatten([x, y]) == x + y && !Accepts(env, c, [x, y], d, t)
  {
    hide Drain;
    assert [x, y][1..] == [y] && Flatten([y]) == y;
  }

  lemma NoFramesNoBody(b: bytes)
    requires Decode(b).Ok?
    ensures b != []
  {
    assert b == [] ==> FindCrlf(b).None?;
  }

  lemma SafeIsAcceptable(env: Env, b: bytes, d: bytes, t: Trailers)
    requires FramingSafe(env, b, d, t)
    ensures Acceptable(env, Fresh(None).Feed(b), d, t)
  {
    hide DecodeChunks, HeaderLines, BodyTrailerLines, GoodHeaders, ShortLines;
    assert [] + b == b;
  }

  lemma AcceptedWheneverGood(env: Env, b: bytes, frames: seq<bytes>, d: bytes, t: Trailers)
    requires FramingSafe(env, b, d, t) && Flatten(frames) == b
    ensures Accepts(env, Fresh(None), frames, d, t)
  {
    hide DecodeChunks, HeaderLines, BodyTrailerLines, Accepts, GoodHeaders, ShortLines;
    NoFramesNoBody(b);
    SafeIsAcceptable(env, b, d, t);
    hide FramingSafe, Acceptable;
    EveryFramingAccepts(env, Fresh(None), frames, d, t);
  }

  lemma GoodWheneverAccepted(env: Env, b: bytes, d: bytes, t: Trailers)
    requires forall frames :: Flatten(frames) == b ==> Accepts(env, Fresh(None), frames, d, t)
    ensures FramingSafe(env, b, d, t)
  {
    hide Drain, DecodeChunks, HeaderLines, BodyTrailerLines, Accepts;
    var c := Fresh(None).Feed(b);
    assert [] + b == b;
    assert Flatten([b]) == b;
    OneFrame(env, Fresh(None), b, d, t);
    DrainDecodes(env, c);
    FinishedIsGood(env, c);
    assert Decode(b) == Ok(Decoded(d, t, [])) && WithinLimit(env, |d|);
    assert HeadersAhead(c) == HeaderLines(b) && TrailersAhead(c) == BodyTrailerLines(b);
    if !ShortLines(HeaderLines(b)) || !ShortLines(BodyTrailerLines(b)) {
      var k := LongLineCut(env, c);
      assert [] + b[..k] == b[..k] && b[..k] + b[k..] == b;
      TwoFrames(env, Fresh(None), b[..k], b[k..], d, t);
    }
  }

  /**
    A body is accepted with payload `d` and trailers `t` however it is cut into frames
    if and only if the one-shot decoder consumes it whole with that result, its chunk
    extensions are well formed, no control line exceeds 16383 bytes, and the payload
    fits the limit.
  */
  lemma AcceptedUnderEveryFraming(env: Env, b: bytes, d: bytes, t: Trailers)
    ensures (forall frames :: Flatten(frames) == b ==> Accepts(env, Fresh(None), frames, d, t))
            <==> FramingSafe(env, b, d, t)
  {
    hide *;
    if FramingSafe(env, b, d, t) {
      forall frames | Flatten(frames) == b ensures Accepts(env, Fresh(None), frames, d, t) {
        AcceptedWheneverGood(env, b, frames, d, t);
      }
    }
    if forall frames :: Flatten(frames) == b ==> Accepts(env, Fresh(None), frames, d, t) {
      GoodWheneverAccepted(env, b, d, t);
    }
  }
}
