/**
  What the streaming parser computes does not depend on how the body is cut into
  frames, and is what the one-shot decoder computes.
*/
module StreamingProofs {
  import opened Bytes
  import opened AwsChunked
  import opened ChunkSignatures
  import opened StreamingSpec

  // ------------------------------------------------------- steps look only ahead

  lemma TakeLineLocal(b: bytes, y: bytes)
    requires TakeLine(b).Line?
    ensures var r := TakeLine(b); var k := |b| - |r.rest|;
            2 <= k <= |b| && r.rest == b[k..] && k == |r.line| + 2
            && TakeLine(b[..k] + y) == Line(r.line, y)
  {
    var i := FindCrlf(b).value;
    var k := i + 2;
    var p := b[..k];
    assert CrlfAt(p, i);
    assert forall j :: 0 <= j < i ==> (CrlfAt(p, j) <==> CrlfAt(b, j));
    FindCrlfStable(p, y);
    assert (p + y)[..i] == b[..i];
    assert (p + y)[k..] == y;
  }

  lemma HeaderStepLocal(env: Env, c: Config, y: bytes)
    requires HeaderStep(env, c).Continue?
    ensures var n := HeaderStep(env, c).next; var k := |c.buffer| - |n.buffer|;
            0 <= k && n.buffer == c.buffer[k..]
            && HeaderStep(env, c.(buffer := c.buffer[..k] + y)) == Continue(n.(buffer := y))
  {
    TakeLineLocal(c.buffer, y);
  }

  lemma TrailerStepLocal(env: Env, c: Config, y: bytes)
    requires TrailerStep(env, c).Continue?
    ensures var n := TrailerStep(env, c).next; var k := |c.buffer| - |n.buffer|;
            0 <= k && n.buffer == c.buffer[k..]
            && TrailerStep(env, c.(buffer := c.buffer[..k] + y)) == Continue(n.(buffer := y))
  {
    TakeLineLocal(c.buffer, y);
  }

  lemma DataStepLocal(env: Env, c: Config, y: bytes)
    requires c.phase.ChunkData? && DataStep(env, c).Continue?
    ensures var n := DataStep(env, c).next; var k := |c.buffer| - |n.buffer|;
            0 <= k && n.buffer == c.buffer[k..]
            && DataStep(env, c.(buffer := c.buffer[..k] + y)) == Continue(n.(buffer := y))
  {
    var size := c.phase.size;
    var b := c.buffer[..size + 2] + y;
    assert b[size..size + 2] == c.buffer[size..size + 2];
    assert b[..size] == c.buffer[..size];
    assert b[size + 2..] == y;
  }

  /** A step consumes a prefix of the buffer and does not look past it. */
  lemma StepLocal(env: Env, c: Config, y: bytes)
    requires Step(env, c).Continue?
    ensures var n := Step(env, c).next; var k := |c.buffer| - |n.buffer|;
            n.buffer == c.buffer[k..]
            && Step(env, c.(buffer := c.buffer[..k] + y)) == Continue(n.(buffer := y))
  {
    hide HeaderStep, DataStep, TrailerStep;
    match c.phase
    case ChunkHeader => HeaderStepLocal(env, c, y);
    case Trailer => TrailerStepLocal(env, c, y);
    case ChunkData(_, _) => DataStepLocal(env, c, y);
    case Done =>
  }

  lemma StepFeedsOn(env: Env, c: Config, x: bytes)
    requires Step(env, c).Continue?
    ensures Step(env, c.Feed(x)) == Continue(Step(env, c).next.Feed(x))
  {
    hide Step;
    var n := Step(env, c).next;
    var k := |c.buffer| - |n.buffer|;
    StepLocal(env, c, n.buffer + x);
    assert c.buffer[..k] + (n.buffer + x) == c.buffer + x;
  }

  lemma TakeLineStable(b: bytes, x: bytes)
    requires FindCrlf(b).Some?
    ensures match TakeLine(b)
            case Line(line, rest) => TakeLine(b + x) == Line(line, rest + x)
            case r => TakeLine(b + x) == r
  {
    FindCrlfStable(b, x);
    var i := FindCrlf(b).value;
    assert (b + x)[..i] == b[..i];
    assert (b + x)[i + 2..] == b[i + 2..] + x;
  }

  lemma HeaderFailureIsFinal(env: Env, c: Config, x: bytes)
    requires HeaderStep(env, c).Fail? && HeaderStep(env, c).error != ControlLineTooLarge
    ensures HeaderStep(env, c.Feed(x)) == HeaderStep(env, c)
  {
    TakeLineStable(c.buffer, x);
  }

  lemma TrailerFailureIsFinal(env: Env, c: Config, x: bytes)
    requires TrailerStep(env, c).Fail? && TrailerStep(env, c).error != ControlLineTooLarge
    ensures TrailerStep(env, c.Feed(x)) == TrailerStep(env, c)
  {
    TakeLineStable(c.buffer, x);
  }

  lemma DataFailureIsFinal(env: Env, c: Config, x: bytes)
    requires c.phase.ChunkData? && DataStep(env, c).Fail?
    ensures DataStep(env, c.Feed(x)) == DataStep(env, c)
  {
    var size := c.phase.size;
    if size + 2 <= USIZE_MAX {
      assert (c.buffer + x)[size..size + 2] == c.buffer[size..size + 2];
      assert (c.buffer + x)[..size] == c.buffer[..size];
    }
  }

  /** Only an over-long line can be forgiven by the bytes that follow. */
  lemma FailureIsFinal(env: Env, c: Config, x: bytes)
    requires Step(env, c).Fail? && Step(env, c).error != ControlLineTooLarge
    ensures Step(env, c.Feed(x)) == Step(env, c)
  {
    hide HeaderStep, DataStep, TrailerStep;
    match c.phase
    case ChunkHeader => HeaderFailureIsFinal(env, c, x);
    case Trailer => TrailerFailureIsFinal(env, c, x);
    case ChunkData(_, _) => DataFailureIsFinal(env, c, x);
    case Done =>
  }

  lemma NothingFollowsTheEnd(env: Env, c: Config, x: bytes)
    requires Step(env, c).Finish? && x != []
    ensures Step(env, c.Feed(x)) == Fail(DataAfterFinalTrailer)
  {
    hide FindCrlf, HeaderStep, DataStep;
    if c.phase == Trailer { TakeLineStable(c.buffer, x); }
  }

  // ------------------------------------------------------------- framing of bodies

  /** Pushing x after b is pushing b + x, as long as b alone did not end the parse. */
  lemma {:induction false} DrainSplit(env: Env, c: Config, x: bytes)
    ensures match Drain(env, c)
            case More(n) => Drain(env, c.Feed(x)) == Drain(env, n.Feed(x))
            case Failed(e, n) => e == ControlLineTooLarge || Drain(env, c.Feed(x)) == Failed(e, n.Feed(x))
            case Finished(_) => x == [] || Drain(env, c.Feed(x)).Failed?
    decreases |c.buffer|
  {
    match Step(env, c)
    case Wait =>
    case Fail(e) => if e != ControlLineTooLarge { FailureIsFinal(env, c, x); }
    case Finish(_) => if x != [] { NothingFollowsTheEnd(env, c, x); }
    case Continue(n) =>
      StepFeedsOn(env, c, x);
      DrainSplit(env, n, x);
  }

  lemma FeedTwice(c: Config, x: bytes, y: bytes)
    ensures c.Feed(x).Feed(y) == c.Feed(x + y)
  {
    assert c.buffer + x + y == c.buffer + (x + y);
  }

  /** A finishing run is one push of the frames it pulled. */
  lemma {:induction false} RunIsOnePush(env: Env, c: Config, frames: seq<bytes>) returns (pulled: nat)
    requires Run(env, c, frames).Finished?
    ensures pulled <= |frames|
    ensures Drain(env, c.Feed(Flatten(frames[..pulled]))) == Run(env, c, frames)
    decreases |frames|
  {
    match Drain(env, c.Feed(frames[0])) {
      case Finished(_) =>
        pulled := 1;
        assert frames[..1] == [frames[0]] && Flatten([frames[0]]) == frames[0];
      case More(n) =>
        var later := RunIsOnePush(env, n, frames[1..]);
        pulled := later + 1;
        var rest := Flatten(frames[1..][..later]);
        assert frames[..pulled][1..] == frames[1..][..later];
        assert Flatten(frames[..pulled]) == frames[0] + rest;
        DrainSplit(env, c.Feed(frames[0]), rest);
        FeedTwice(c, frames[0], rest);
    }
  }

  // ------------------------------------------------------ the one-shot reference

  /** What the one-shot decoder would make of the rest of the body. */
  function Residual(c: Config): Result<Decoded, DecodeError> {
    match c.phase
    case ChunkHeader => DecodeChunks(c.buffer, Payload(c.log))
    case ChunkData(size, _) =>
      (match TakeChunk(c.buffer, size)
       case Err(e) => Err(e)
       case Ok((chunk, after)) => DecodeChunks(after, Payload(c.log) + chunk))
    case Trailer => DecodeTrailers(c.buffer, Payload(c.log), c.trailers)
    case Done => Ok(Decoded(Payload(c.log), c.trailers, c.buffer))
  }

  predicate Coherent(c: Config) {
    && (c.phase.ChunkHeader? || c.phase.ChunkData? ==> c.trailers == map[])
    && (c.phase.ChunkData? ==> 0 < c.phase.size)
  }

  lemma HeaderStepDecodes(env: Env, c: Config)
    requires c.phase == ChunkHeader && c.trailers == map[] && HeaderStep(env, c).Continue?
    ensures Coherent(HeaderStep(env, c).next) && Residual(HeaderStep(env, c).next) == Residual(c)
  {
    hide ReadExtensions, Extensions, SizeToken, Utf8Valid, VerifyChunk, DecodeTrailers;
    var line, rest := TakeLine(c.buffer).line, TakeLine(c.buffer).rest;
    assert ReadLine(c.buffer) == Ok((line, rest));
    var h := ParseHeader(line).value;
    assert ParseSize(line) == Some(h.size);
    if h.size == 0 {
      PayloadAppend(c.log, Chunk([], h.signature));
      assert Payload(c.log) + [] == Payload(c.log);
    }
  }

  lemma DataStepDecodes(env: Env, c: Config)
    requires c.phase.ChunkData? && c.trailers == map[] && DataStep(env, c).Continue?
    ensures Coherent(DataStep(env, c).next) && Residual(DataStep(env, c).next) == Residual(c)
  {
    var size := c.phase.size;
    PayloadAppend(c.log, Chunk(c.buffer[..size], c.phase.signature));
    assert TakeChunk(c.buffer, size) == Ok((c.buffer[..size], c.buffer[size + 2..]));
  }

  lemma TrailerStepDecodes(env: Env, c: Config)
    requires c.phase == Trailer
    ensures match TrailerStep(env, c)
            case Continue(n) => Residual(n) == Residual(c)
            case Finish(end) => Residual(c) == Ok(Decoded(Payload(end.log), end.trailers, []))
            case _ => true
  {
    if TakeLine(c.buffer).Line? {
      assert ReadLine(c.buffer) == Ok((TakeLine(c.buffer).line, TakeLine(c.buffer).rest));
    }
  }

  lemma StepDecodes(env: Env, c: Config)
    requires Coherent(c)
    ensures match Step(env, c)
            case Continue(n) => Coherent(n) && Residual(n) == Residual(c)
            case Finish(end) => Residual(c) == Ok(Decoded(Payload(end.log), end.trailers, []))
            case _ => true
  {
    hide HeaderStep, DataStep, TrailerStep, DecodeChunks, DecodeTrailers;
    match c.phase
    case ChunkHeader => if Step(env, c).Continue? { HeaderStepDecodes(env, c); }
    case ChunkData(_, _) => if Step(env, c).Continue? { DataStepDecodes(env, c); }
    case Trailer => TrailerStepDecodes(env, c);
    case Done =>
  }

  lemma {:induction false} DrainDecodes(env: Env, c: Config)
    requires Coherent(c) && Drain(env, c).Finished?
    ensures var end := Drain(env, c).config;
            Residual(c) == Ok(Decoded(Payload(end.log), end.trailers, []))
    decreases |c.buffer|
  {
    StepDecodes(env, c);
    if Step(env, c).Continue? { DrainDecodes(env, Step(env, c).next); }
  }

  /**
    Streaming refines one-shot: whatever the frames, signed or not, a parse that
    finishes wrote exactly the bytes, and returned exactly the trailers, that the
    one-shot decoder finds in all the frames together, pulled or not.
  */
  lemma StreamingRefinesOneShot(env: Env, verifier: Option<Verifier>, frames: seq<bytes>)
    requires Run(env, Fresh(verifier), frames).Finished?
    ensures var end := Run(env, Fresh(verifier), frames).config;
            WithoutRest(Decode(Flatten(frames))) == Ok(DecodedAwsChunkedBody(Payload(end.log), end.trailers))
  {
    hide Run, Drain, DecodeChunks;
    var c := Fresh(verifier);
    var k := RunIsOnePush(env, c, frames);
    var pulled := Flatten(frames[..k]);
    assert [] + pulled == pulled;
    DrainDecodes(env, c.Feed(pulled));
    DecodeStable(pulled, [], Flatten(frames[k..]));
    FlattenAppend(frames[..k], frames[k..]);
    assert frames[..k] + frames[k..] == frames;
  }

  // ------------------------------------------------------ the log only ever grows

  lemma TrailerStepLog(env: Env, c: Config)
    ensures TrailerStep(env, c).Continue? ==> TrailerStep(env, c).next.log == c.log
  {
    hide Utf8Valid, AddTrailer;
  }

  lemma StepLog(env: Env, c: Config)
    ensures Step(env, c).Continue? ==> c.log <= Step(env, c).next.log
    ensures Step(env, c).Finish? ==> c.log == Step(env, c).end.log
  {
    hide Utf8Valid, AddTrailer, ParseHeader, VerifyChunk, Payload;
  }

  lemma {:induction false} DrainLog(env: Env, c: Config)
    ensures c.log <= Drain(env, c).config.log
    decreases |c.buffer|
  {
    hide Step;
    StepLog(env, c);
    if Step(env, c).Continue? { DrainLog(env, Step(env, c).next); }
  }

  lemma {:induction false} RunLog(env: Env, c: Config, frames: seq<bytes>)
    ensures c.log <= Run(env, c, frames).config.log
    decreases |frames|
  {
    hide Drain;
    if frames != [] {
      DrainLog(env, c.Feed(frames[0]));
      match Drain(env, c.Feed(frames[0]))
      case More(n) => RunLog(env, n, frames[1..]);
      case _ =>
    }
  }

  lemma {:induction false} PayloadGrows(a: seq<Chunk>, b: seq<Chunk>)
    requires a <= b
    ensures Payload(a) <= Payload(b)
    decreases |b|
  {
    if |a| < |b| {
      PayloadGrows(a, b[..|b| - 1]);
    } else {
      assert a == b;
    }
  }
}
