/**
  What a signed upload adds to an unsigned one: the signature chain, at every
  moment of every run, and a trailer block whose line order does not matter.
*/
module SignatureProofs {
  import opened Bytes
  import opened AwsChunked
  import opened ChunkSignatures
  import opened StreamingSpec
  import opened StreamingProofs

  function Unsigned(c: Config): Config { c.(verifier := None) }

  /** The verifier holds the signature that the chunks logged so far lead to. */
  predicate Linked(env: Env, seed: Verifier, c: Config) {
    Chained(env.crypto, seed, c.log) && c.verifier == Some(After(env.crypto, seed, c.log))
  }

  predicate TrailersVerify(env: Env, seed: Verifier, log: seq<Chunk>, trailers: Trailers) {
    VerifyTrailer(env.crypto, After(env.crypto, seed, log), trailers).Some?
  }

  lemma HeaderStepSigned(env: Env, seed: Verifier, c: Config)
    requires Linked(env, seed, c)
    ensures match HeaderStep(env, Unsigned(c))
            case Continue(u) =>
              if Chained(env.crypto, seed, u.log)
              then HeaderStep(env, c).Continue? && Unsigned(HeaderStep(env, c).next) == u
                   && Linked(env, seed, HeaderStep(env, c).next)
              else HeaderStep(env, c).Fail?
            case r => HeaderStep(env, c) == r
  {
    hide ReadExtensions, Extensions, ParseSize, Utf8Valid, Verify, After, Chained;
    if HeaderStep(env, Unsigned(c)).Continue? {
      var h := ParseHeader(TakeLine(c.buffer).line).value;
      VerifyExtendsChain(env.crypto, seed, c.log, Chunk([], h.signature));
    }
  }

  lemma DataStepSigned(env: Env, seed: Verifier, c: Config)
    requires c.phase.ChunkData? && Linked(env, seed, c)
    ensures match DataStep(env, Unsigned(c))
            case Continue(u) =>
              if Chained(env.crypto, seed, u.log)
              then DataStep(env, c).Continue? && Unsigned(DataStep(env, c).next) == u
                   && Linked(env, seed, DataStep(env, c).next)
              else DataStep(env, c).Fail?
            case Wait => DataStep(env, c).Wait?
            case r => DataStep(env, c).Fail?
  {
    hide Verify, After, Chained;
    if DataStep(env, Unsigned(c)).Continue? {
      VerifyExtendsChain(env.crypto, seed, c.log, Chunk(c.buffer[..c.phase.size], c.phase.signature));
    }
  }

  lemma TrailerStepSigned(env: Env, seed: Verifier, c: Config)
    requires Linked(env, seed, c)
    ensures match TrailerStep(env, Unsigned(c))
            case Continue(u) =>
              TrailerStep(env, c).Continue? && Unsigned(TrailerStep(env, c).next) == u
              && Linked(env, seed, TrailerStep(env, c).next)
            case Finish(u) =>
              if TrailersVerify(env, seed, u.log, u.trailers)
              then TrailerStep(env, c).Finish? && Unsigned(TrailerStep(env, c).end) == u
              else TrailerStep(env, c).Fail?
            case Wait => TrailerStep(env, c).Wait?
            case Fail(_) => TrailerStep(env, c).Fail?
  {
    hide Utf8Valid, VerifyTrailer, After, Chained, AddTrailer;
  }

  /** A signed step is the unsigned step, refused exactly when it would break the chain. */
  lemma StepSigned(env: Env, seed: Verifier, c: Config)
    requires c.phase != Done && Linked(env, seed, c)
    ensures match Step(env, Unsigned(c))
            case Continue(u) =>
              if Chained(env.crypto, seed, u.log)
              then Step(env, c).Continue? && Unsigned(Step(env, c).next) == u
                   && Linked(env, seed, Step(env, c).next)
              else Step(env, c).Fail?
            case Finish(u) =>
              if TrailersVerify(env, seed, u.log, u.trailers)
              then Step(env, c).Finish? && Unsigned(Step(env, c).end) == u
              else Step(env, c).Fail?
            case Wait => Step(env, c).Wait?
            case Fail(_) => Step(env, c).Fail?
  {
    hide HeaderStep, DataStep, TrailerStep, TrailersVerify, Chained, After;
    match c.phase
    case ChunkHeader => HeaderStepSigned(env, seed, c);
    case ChunkData(_, _) => DataStepSigned(env, seed, c);
    case Trailer =>
      TrailerStepSigned(env, seed, c);
      TrailerStepLog(env, Unsigned(c));
  }

  // ---------------------------------------------------------------- whole pushes

  lemma ChainOfPrefix(env: Env, seed: Verifier, a: seq<Chunk>, b: seq<Chunk>)
    requires a <= b && Chained(env.crypto, seed, b)
    ensures Chained(env.crypto, seed, a)
  {
    hide Chained;
    ChainPrefix(env.crypto, seed, b, |a|);
    assert b[..|a|] == a;
  }

  /** The push is what the unsigned push is, provided the chain holds to its end. */
  lemma {:induction false} DrainSigned(env: Env, seed: Verifier, c: Config)
    requires c.phase != Done && Linked(env, seed, c)
    ensures Chained(env.crypto, seed, Drain(env, c).config.log)
    ensures match Drain(env, c)
            case More(n) => Linked(env, seed, n) && n.phase != Done && Drain(env, Unsigned(c)) == More(Unsigned(n))
            case Finished(n) =>
              Drain(env, Unsigned(c)) == Finished(Unsigned(n)) && TrailersVerify(env, seed, n.log, n.trailers)
            case Failed(_, _) => true
    ensures match Drain(env, Unsigned(c))
            case More(u) => Chained(env.crypto, seed, u.log) ==> Drain(env, c).More?
            case Finished(u) =>
              Chained(env.crypto, seed, u.log) && TrailersVerify(env, seed, u.log, u.trailers) ==>
                  Drain(env, c).Finished?
            case Failed(_, _) => true
    decreases |c.buffer|
  {
    hide Step, TrailersVerify, Chained, After;
    StepSigned(env, seed, c);
    StepLog(env, c);
    StepLog(env, Unsigned(c));
    match Step(env, Unsigned(c))
    case Continue(u) =>
      DrainLog(env, u);
      if Chained(env.crypto, seed, Drain(env, u).config.log) {
        ChainOfPrefix(env, seed, u.log, Drain(env, u).config.log);
      }
      if Chained(env.crypto, seed, u.log) { DrainSigned(env, seed, Step(env, c).next); }
    case _ =>
  }

  // ----------------------------------------------------------------- whole bodies

  lemma {:induction false} RunSigned(env: Env, seed: Verifier, c: Config, frames: seq<bytes>)
    requires c.phase != Done && Linked(env, seed, c)
    ensures Chained(env.crypto, seed, Run(env, c, frames).config.log)
    ensures Run(env, c, frames).Finished? ==>
              var n := Run(env, c, frames).config;
              Run(env, Unsigned(c), frames) == Finished(Unsigned(n)) && TrailersVerify(env, seed, n.log, n.trailers)
    ensures Run(env, Unsigned(c), frames).Finished? ==>
              var u := Run(env, Unsigned(c), frames).config;
              Chained(env.crypto, seed, u.log) && TrailersVerify(env, seed, u.log, u.trailers)
              ==> Run(env, c, frames).Finished?
    decreases |frames|
  {
    hide Drain, TrailersVerify, Chained, After;
    if frames != [] {
      var f := c.Feed(frames[0]);
      assert Unsigned(f) == Unsigned(c).Feed(frames[0]);
      DrainSigned(env, seed, f);
      match Drain(env, Unsigned(f))
      case More(u) =>
        RunLog(env, u, frames[1..]);
        if Chained(env.crypto, seed, Run(env, u, frames[1..]).config.log) {
          ChainOfPrefix(env, seed, u.log, Run(env, u, frames[1..]).config.log);
        }
        if Drain(env, f).More? { RunSigned(env, seed, Drain(env, f).config, frames[1..]); }
      case _ =>
    }
  }

  /**
    At every moment of every signed run, finished or not, the bytes handed to the
    writer are the payload of chunks each of which carries the signature that links
    it to the seed.
  */
  lemma WrittenBytesAreChained(env: Env, seed: Verifier, frames: seq<bytes>)
    ensures Chained(env.crypto, seed, Run(env, Fresh(Some(seed)), frames).config.log)
  {
    RunSigned(env, seed, Fresh(Some(seed)), frames);
  }

  /**
    A signed body is accepted exactly when the unsigned parse accepts it, every chunk
    including the closing zero chunk is in the chain, and (in trailer mode) the trailer
    block carries the signature that follows.
  */
  lemma SignedAcceptance(env: Env, seed: Verifier, frames: seq<bytes>)
    ensures var signed := Run(env, Fresh(Some(seed)), frames);
            var plain := Run(env, Fresh(None), frames);
            && (signed.Finished? <==>
                 && plain.Finished?
                 && Chained(env.crypto, seed, plain.config.log)
                 && TrailersVerify(env, seed, plain.config.log, plain.config.trailers))
            && (signed.Finished? ==> plain.config == Unsigned(signed.config))
  {
    RunSigned(env, seed, Fresh(Some(seed)), frames);
    assert Unsigned(Fresh(Some(seed))) == Fresh(None);
  }

  /** A finished parse logged the closing zero chunk last. */
  lemma {:induction false} ClosingChunkIsLogged(env: Env, c: Config)
    requires c.phase == Trailer ==> c.log != [] && c.log[|c.log| - 1].data == []
    requires c.phase != Done && Drain(env, c).Finished?
    ensures var log := Drain(env, c).config.log; log != [] && log[|log| - 1].data == []
    decreases |c.buffer|
  {
    hide TakeLine, ParseHeader, AddTrailer, VerifyChunk, Payload;
    match Step(env, c)
    case Continue(n) => ClosingChunkIsLogged(env, n);
    case _ =>
  }

  /** So every accepted body, however framed, ends its chain with the zero chunk. */
  lemma AcceptedBodyIsClosed(env: Env, verifier: Option<Verifier>, frames: seq<bytes>)
    requires Run(env, Fresh(verifier), frames).Finished?
    ensures var log := Run(env, Fresh(verifier), frames).config.log;
            log != [] && log[|log| - 1].data == []
  {
    hide Drain, Run;
    var pulled := RunIsOnePush(env, Fresh(verifier), frames);
    ClosingChunkIsLogged(env, Fresh(verifier).Feed(Flatten(frames[..pulled])));
  }

  // ------------------------------------------------ order of the trailer lines

  function FoldTrailers(t: Trailers, lines: seq<bytes>): Result<Trailers, DecodeError>
    decreases |lines|
  {
    if lines == [] then Ok(t)
    else match AddTrailer(t, lines[0])
      case Err(e) => Err(e)
      case Ok(more) => FoldTrailers(more, lines[1..])
  }

  lemma FoldCons(t: Trailers, a: bytes, rest: seq<bytes>)
    ensures AddTrailer(t, a).Ok? ==> FoldTrailers(t, [a] + rest) == FoldTrailers(AddTrailer(t, a).value, rest)
    ensures AddTrailer(t, a).Err? ==> FoldTrailers(t, [a] + rest).Err?
  {
    hide AddTrailer;
    assert ([a] + rest)[1..] == rest;
  }

  lemma AddCommutes(t: Trailers, a: bytes, b: bytes)
    requires AddTrailer(t, a).Ok? && AddTrailer(AddTrailer(t, a).value, b).Ok?
    ensures AddTrailer(t, b).Ok?
    ensures AddTrailer(AddTrailer(t, b).value, a) == AddTrailer(AddTrailer(t, a).value, b)
  {
    hide SplitOnce, Trim, Lower;
    var (na, va) := SplitOnce(a, COLON).value;
    var (nb, vb) := SplitOnce(b, COLON).value;
    var ka, kb := Lower(Trim(na)), Lower(Trim(nb));
    assert t[ka := Trim(va)][kb := Trim(vb)] == t[kb := Trim(vb)][ka := Trim(va)];
  }

  lemma SwapTrailers(t: Trailers, a: bytes, b: bytes, rest: seq<bytes>)
    requires FoldTrailers(t, [a] + ([b] + rest)).Ok?
    ensures FoldTrailers(t, [b] + ([a] + rest)) == FoldTrailers(t, [a] + ([b] + rest))
  {
    hide FoldTrailers, AddTrailer;
    FoldCons(t, a, [b] + rest);
    FoldCons(AddTrailer(t, a).value, b, rest);
    AddCommutes(t, a, b);
    FoldCons(t, b, [a] + rest);
    FoldCons(AddTrailer(t, b).value, a, rest);
  }

  /** The line at `j` may as well come first. */
  lemma {:induction false} TrailerToFront(t: Trailers, before: seq<bytes>, line: bytes, after: seq<bytes>)
    requires FoldTrailers(t, before + ([line] + after)).Ok?
    ensures FoldTrailers(t, [line] + (before + after)) == FoldTrailers(t, before + ([line] + after))
    decreases |before|
  {
    hide FoldTrailers, AddTrailer;
    if before == [] {
      assert before + ([line] + after) == [line] + (before + after);
    } else {
      var b, tail := before[0], before[1..];
      assert before + ([line] + after) == [b] + (tail + ([line] + after));
      FoldCons(t, b, tail + ([line] + after));
      var t1 := AddTrailer(t, b).value;
      TrailerToFront(t1, tail, line, after);
      FoldCons(t, b, [line] + (tail + after));
      SwapTrailers(t, b, line, tail + after);
      assert [b] + (tail + after) == before + after;
    }
  }

  /** Any order of the same trailer lines gives the same trailers. */
  lemma {:induction false} TrailerOrderIrrelevant(t: Trailers, a: seq<bytes>, b: seq<bytes>)
    requires multiset(a) == multiset(b) && FoldTrailers(t, b).Ok?
    ensures FoldTrailers(t, a) == FoldTrailers(t, b)
    decreases |a|
  {
    hide FoldTrailers, AddTrailer;
    if a == [] {
      assert |multiset(b)| == 0;
    } else {
      var line, tail := a[0], a[1..];
      assert a == [line] + tail;
      var j := TakeOut(a, b);
      var before, after := b[..j], b[j + 1..];
      assert b == before + ([line] + after);
      TrailerToFront(t, before, line, after);
      FoldCons(t, line, before + after);
      FoldCons(t, line, tail);
      TrailerOrderIrrelevant(AddTrailer(t, line).value, tail, before + after);
    }
  }

  // -------------------------------------------------------- sections on the wire

  /** A line that can be sent: non-empty valid text that cannot be mistaken for its terminator. */
  ghost predicate CleanLine(line: bytes) {
    && line != [] && line[|line| - 1] != CR && Utf8Valid(line)
    && forall j :: !CrlfAt(line, j)
  }

  function Section(lines: seq<bytes>): bytes {
    if lines == [] then CRLF else lines[0] + CRLF + Section(lines[1..])
  }

  /** Reading a section on the wire is folding its lines. */
  lemma {:induction false} SectionIsFolded(env: Env, c: Config, lines: seq<bytes>)
    requires c.phase == Trailer && c.buffer == Section(lines)
    requires forall i :: 0 <= i < |lines| ==> CleanLine(lines[i])
    ensures match FoldTrailers(c.trailers, lines)
            case Err(_) => Drain(env, c).Failed?
            case Ok(t) =>
              match VerifyTrailers(env, c.verifier, t)
              case Err(_) => Drain(env, c).Failed?
              case Ok(v) => Drain(env, c) == Finished(c.(buffer := [], phase := Done, trailers := t, verifier := v))
    decreases |lines|
  {
    hide AddTrailer, VerifyTrailers;
    if lines == [] {
      assert CRLF == [] + CRLF + [];
      FindCrlfOfLine([], []);
      assert TakeLine(c.buffer) == Line([], []);
    } else {
      var line, rest := lines[0], Section(lines[1..]);
      FindCrlfOfLine(line, rest);
      assert c.buffer[..|line|] == line && c.buffer[|line| + 2..] == rest;
      assert TakeLine(c.buffer) == Line(line, rest);
      if AddTrailer(c.trailers, line).Ok? {
        SectionIsFolded(env, c.(buffer := rest, trailers := AddTrailer(c.trailers, line).value), lines[1..]);
      }
    }
  }

  /**
    Sending the same trailer lines in another order changes neither the verdict nor
    the trailers, signed or not.
  */
  lemma TrailerSectionOrderIrrelevant(env: Env, c: Config, a: seq<bytes>, b: seq<bytes>)
    requires c.phase == Trailer && c.buffer == []
    requires forall i :: 0 <= i < |a| ==> CleanLine(a[i])
    requires multiset(a) == multiset(b)
    ensures Drain(env, c.Feed(Section(a))).Finished? <==> Drain(env, c.Feed(Section(b))).Finished?
    ensures Drain(env, c.Feed(Section(a))).Finished? ==>
              Drain(env, c.Feed(Section(a))) == Drain(env, c.Feed(Section(b)))
  {
    hide Drain, FoldTrailers, CleanLine, VerifyTrailers, Section;
    forall i | 0 <= i < |b| ensures CleanLine(b[i]) {
      assert b[i] in multiset(a);
      var k :| 0 <= k < |a| && a[k] == b[i];
    }
    assert [] + Section(a) == Section(a) && [] + Section(b) == Section(b);
    SectionIsFolded(env, c.Feed(Section(a)), a);
    SectionIsFolded(env, c.Feed(Section(b)), b);
    if FoldTrailers(c.trailers, b).Ok? { TrailerOrderIrrelevant(c.trailers, a, b); }
    if FoldTrailers(c.trailers, a).Ok? { TrailerOrderIrrelevant(c.trailers, b, a); }
  }
}
