/**
  What a streaming signature covers. Nothing here is about how signatures are chained:
  it is about the text that is signed, read back field by field, and about which uploads
  can carry the same signatures when hashing and signing lose nothing.
*/
module SigningProofs {
  import opened Bytes
  import opened AwsChunked
  import opened ChunkSignatures
  import opened StreamingSpec
  import opened StreamingProofs
  import opened SignatureProofs

  /** Different texts have different digests, and different messages different signatures under one key. */
  ghost predicate LosesNothing(crypto: Crypto) {
    && (forall x, y :: crypto.sha256Hex(x) == crypto.sha256Hex(y) ==> x == y)
    && (forall k, x, y :: crypto.hmacHex(k, x) == crypto.hmacHex(k, y) ==> x == y)
  }

  // ------------------------------------------------------------- the signed texts

  /** The date, scope and previous signature are single lines. */
  predicate SingleLines(v: Verifier) { LF !in v.date && LF !in v.scope && LF !in v.previous }

  /** Six lines: algorithm, date, scope, previous signature, hash of nothing, hash of the chunk. */
  lemma ChunkTextIsSixLines(crypto: Crypto, v: Verifier, data: bytes)
    requires SingleLines(v) && LF !in crypto.sha256Hex([]) && LF !in crypto.sha256Hex(data)
    ensures Split(ChunkStringToSign(crypto, v, data), LF) ==
            [Ascii("AWS4-HMAC-SHA256-PAYLOAD"), v.date, v.scope, v.previous,
             crypto.sha256Hex([]), crypto.sha256Hex(data)]
  {
    var lines := [Ascii("AWS4-HMAC-SHA256-PAYLOAD"), v.date, v.scope, v.previous,
                  crypto.sha256Hex([]), crypto.sha256Hex(data)];
    SplitOfJoin(lines, LF);
    JoinSix(lines);
  }

  /** A chunk is accepted exactly if its signature is that of those six lines under the signing key. */
  lemma AcceptedChunkSignature(crypto: Crypto, v: Verifier, chunk: Chunk)
    requires SingleLines(v) && LF !in crypto.sha256Hex([]) && LF !in crypto.sha256Hex(chunk.data)
    ensures Verify(crypto, v, chunk).Some? <==>
              exists text :: chunk.signature == Some(crypto.hmacHex(v.key, text)) && Split(text, LF) ==
                [Ascii("AWS4-HMAC-SHA256-PAYLOAD"), v.date, v.scope, v.previous,
                 crypto.sha256Hex([]), crypto.sha256Hex(chunk.data)]
  {
    var text := ChunkStringToSign(crypto, v, chunk.data);
    ChunkTextIsSixLines(crypto, v, chunk.data);
    hide ChunkStringToSign, Split, Join;
    forall x | Split(x, LF) == Split(text, LF) ensures x == text {
      JoinOfSplit(x, LF);
      JoinOfSplit(text, LF);
    }
  }

  lemma JoinSix(p: seq<bytes>)
    requires |p| == 6
    ensures Join(p, LF) == p[0] + NL + p[1] + NL + p[2] + NL + p[3] + NL + p[4] + NL + p[5]
  {
    assert Join(p[5..], LF) == p[5];
    assert p[4..][1..] == p[5..] && p[3..][1..] == p[4..] && p[2..][1..] == p[3..] && p[1..][1..] == p[2..];
    assert Join(p[4..], LF) == p[4] + NL + p[5];
    assert Join(p[3..], LF) == p[3] + NL + Join(p[4..], LF);
    assert Join(p[2..], LF) == p[2] + NL + Join(p[3..], LF);
    assert Join(p[1..], LF) == p[1] + NL + Join(p[2..], LF);
    assert Join(p, LF) == p[0] + NL + Join(p[1..], LF);
  }

  /** Five lines: algorithm, date, scope, the last chunk's signature, hash of the trailer lines. */
  lemma TrailerTextIsFiveLines(crypto: Crypto, v: Verifier, t: Trailers)
    requires SingleLines(v) && LF !in crypto.sha256Hex(SignedLines(t))
    ensures Split(TrailerStringToSign(crypto, v, t), LF) ==
            [Ascii("AWS4-HMAC-SHA256-TRAILER"), v.date, v.scope, v.previous, crypto.sha256Hex(SignedLines(t))]
  {
    var hash := crypto.sha256Hex(SignedLines(t));
    var lines := [Ascii("AWS4-HMAC-SHA256-TRAILER"), v.date, v.scope, v.previous, hash];
    SplitOfJoin(lines, LF);
    JoinFive(lines);
  }

  /** Trailers match exactly if they carry the signature of those five lines under the signing key. */
  lemma AcceptedTrailerSignature(crypto: Crypto, v: Verifier, t: Trailers)
    requires SingleLines(v) && LF !in crypto.sha256Hex(SignedLines(t))
    ensures TrailerSignatureMatches(crypto, v, t) <==>
              && Ascii("x-amz-trailer-signature") in t
              && exists text :: t[Ascii("x-amz-trailer-signature")] == crypto.hmacHex(v.key, text) && Split(text, LF) ==
                   [Ascii("AWS4-HMAC-SHA256-TRAILER"), v.date, v.scope, v.previous, crypto.sha256Hex(SignedLines(t))]
  {
    var text := TrailerStringToSign(crypto, v, t);
    TrailerTextIsFiveLines(crypto, v, t);
    hide TrailerStringToSign, Split, Join, TrailerLines;
    forall x | Split(x, LF) == Split(text, LF) ensures x == text {
      JoinOfSplit(x, LF);
      JoinOfSplit(text, LF);
    }
  }

  lemma JoinFive(p: seq<bytes>)
    requires |p| == 5
    ensures Join(p, LF) == p[0] + NL + p[1] + NL + p[2] + NL + p[3] + NL + p[4]
  {
    assert Join(p[4..], LF) == p[4];
    assert p[3..][1..] == p[4..] && p[2..][1..] == p[3..] && p[1..][1..] == p[2..];
    assert Join(p[3..], LF) == p[3] + NL + p[4];
    assert Join(p[2..], LF) == p[2] + NL + Join(p[3..], LF);
    assert Join(p[1..], LF) == p[1] + NL + Join(p[2..], LF);
    assert Join(p, LF) == p[0] + NL + Join(p[1..], LF);
  }

  function SignedNames(t: Trailers): set<bytes> { t.Keys - {TRAILER_SIGNATURE} }

  function SignedLines(t: Trailers): bytes { TrailerLines(t, SignedNames(t)) }

  // ------------------------------------------------- chunk signatures and their data

  /** Equal signatures after equal signatures were made of equal data. */
  lemma SameSignatureSameData(crypto: Crypto, v: Verifier, x: bytes, y: bytes)
    requires LosesNothing(crypto) && ChunkSignature(crypto, v, x) == ChunkSignature(crypto, v, y)
    ensures x == y
  {
    var head := Ascii("AWS4-HMAC-SHA256-PAYLOAD") + NL + v.date + NL + v.scope + NL + v.previous + NL
                + crypto.sha256Hex([]) + NL;
    var p, q := ChunkStringToSign(crypto, v, x), ChunkStringToSign(crypto, v, y);
    assert p == head + crypto.sha256Hex(x) && q == head + crypto.sha256Hex(y);
    assert p == q;
    assert p[|head|..] == crypto.sha256Hex(x) && q[|head|..] == crypto.sha256Hex(y);
  }

  predicate SameSignatures(a: seq<Chunk>, b: seq<Chunk>) {
    |a| == |b| && forall i :: 0 <= i < |a| ==> a[i].signature == b[i].signature
  }

  lemma LastSignature(crypto: Crypto, seed: Verifier, a: seq<Chunk>)
    requires Chained(crypto, seed, a) && a != []
    ensures a[|a| - 1].signature ==
              Some(ChunkSignature(crypto, After(crypto, seed, a[..|a| - 1]), a[|a| - 1].data))
  {
    hide ChunkSignature;
    assert a[..|a| - 1 + 1] == a;
  }

  /** Chunks chained from one seed under the same signatures are the same chunks. */
  lemma {:induction false} SameSignaturesSameChunks(crypto: Crypto, seed: Verifier, a: seq<Chunk>, b: seq<Chunk>)
    requires LosesNothing(crypto) && Chained(crypto, seed, a) && Chained(crypto, seed, b) && SameSignatures(a, b)
    ensures a == b
    decreases |a|
  {
    hide LosesNothing, ChunkSignature, Chained, ExpectedSignature;
    if a != [] {
      var n := |a| - 1;
      ChainPrefix(crypto, seed, a, n);
      ChainPrefix(crypto, seed, b, n);
      SameSignaturesSameChunks(crypto, seed, a[..n], b[..n]);
      LastSignature(crypto, seed, a);
      LastSignature(crypto, seed, b);
      SameSignatureSameData(crypto, After(crypto, seed, a[..n]), a[n].data, b[n].data);
      assert a == a[..n] + [a[n]] && b == b[..n] + [b[n]];
    }
  }

  // ---------------------------------------------- trailer signatures and the trailers

  /** Names as they are read hold no colon. */
  predicate ColonFree(t: Trailers) { forall n :: n in t ==> COLON !in n }

  /** Values on one line each. */
  predicate OneLineValues(t: Trailers) { forall n :: n in t ==> LF !in t[n] }

  /** The first line of the text, taken apart at its first colon. */
  lemma FirstLine(t: Trailers, names: set<bytes>)
    requires names <= t.Keys && names != {} && COLON !in Least(names)
    ensures var n := Least(names);
            SplitOnce(TrailerLines(t, names), COLON) == Some((n, t[n] + NL + TrailerLines(t, names - {n})))
  {
    var n := Least(names);
    var rest := t[n] + NL + TrailerLines(t, names - {n});
    assert TrailerLines(t, names) == n + [COLON] + rest;
    SplitOnceAt(n, COLON, rest);
  }

  /** With colon-free names and one-line values, the text determines names and values. */
  lemma {:induction false} LinesDetermineTrailers(t: Trailers, s: set<bytes>, u: Trailers, r: set<bytes>)
    requires s <= t.Keys && r <= u.Keys && ColonFree(t) && ColonFree(u) && OneLineValues(t) && OneLineValues(u)
    requires TrailerLines(t, s) == TrailerLines(u, r)
    ensures s == r && forall n :: n in s ==> t[n] == u[n]
    decreases |s|
  {
    if s != {} && r != {} {
      FirstLine(t, s);
      FirstLine(u, r);
      var n := Least(s);
      assert n == Least(r);
      SplitOnceAt(t[n], LF, TrailerLines(t, s - {n}));
      SplitOnceAt(u[n], LF, TrailerLines(u, r - {n}));
      LinesDetermineTrailers(t, s - {n}, u, r - {n});
      assert s == (s - {n}) + {n} && r == (r - {n}) + {n};
    }
  }

  /** Trailers accepted after the same chunks under one signature are the same trailers. */
  lemma SameSignatureSameTrailers(crypto: Crypto, v: Verifier, t: Trailers, u: Trailers)
    requires LosesNothing(crypto)
    requires TrailerSignatureMatches(crypto, v, t) && TrailerSignatureMatches(crypto, v, u)
    requires t[TRAILER_SIGNATURE] == u[TRAILER_SIGNATURE]
    requires ColonFree(t) && ColonFree(u) && OneLineValues(t) && OneLineValues(u)
    ensures t == u
  {
    SameTextSigned(crypto, v, t, u);
    LinesDetermineTrailers(t, SignedNames(t), u, SignedNames(u));
    assert t.Keys == SignedNames(t) + {TRAILER_SIGNATURE} && u.Keys == SignedNames(u) + {TRAILER_SIGNATURE};
    assert forall n :: n in t ==> n in u && t[n] == u[n];
  }

  lemma SameTextSigned(crypto: Crypto, v: Verifier, t: Trailers, u: Trailers)
    requires LosesNothing(crypto)
    requires crypto.hmacHex(v.key, TrailerStringToSign(crypto, v, t)) ==
               crypto.hmacHex(v.key, TrailerStringToSign(crypto, v, u))
    ensures SignedLines(t) == SignedLines(u)
  {
    hide TrailerLines;
    var head := Ascii("AWS4-HMAC-SHA256-TRAILER") + NL + v.date + NL + v.scope + NL + v.previous + NL;
    var p, q := TrailerStringToSign(crypto, v, t), TrailerStringToSign(crypto, v, u);
    assert p == head + crypto.sha256Hex(SignedLines(t)) && q == head + crypto.sha256Hex(SignedLines(u));
    assert p == q;
    assert p[|head|..] == crypto.sha256Hex(SignedLines(t)) && q[|head|..] == crypto.sha256Hex(SignedLines(u));
  }

  // ------------------------------------------------ the lines in order, read back

  /** The signed text is one `name:value` line for each name, in bytewise order of the names. */
  lemma {:induction false} TrailerLinesInOrder(t: Trailers, names: set<bytes>)
    requires names <= t.Keys && ColonFree(t) && OneLineValues(t) && forall n :: n in names ==> LF !in n
    ensures var lines := Split(TrailerLines(t, names), LF);
            && |lines| == |names| + 1 && lines[|names|] == []
            && (forall i :: 0 <= i < |names| ==> NamedLine(t, names, lines[i]))
            && (forall i, j :: 0 <= i < j < |names| ==> Before(NameOf(lines[i]), NameOf(lines[j])))
    decreases |names|
  {
    hide Least, TrailerLines, Split, SplitOnce, Before, ColonFree, OneLineValues;
    if names == {} {
      NothingIsOneLine(t);
    } else {
      var n := Least(names);
      var rest := names - {n};
      TrailerLinesInOrder(t, rest);
      FirstOfTheLines(t, names);
      var lines, later := Split(TrailerLines(t, names), LF), Split(TrailerLines(t, rest), LF);
      assert |names| == |rest| + 1;
      forall i | 0 <= i < |names| ensures NamedLine(t, names, lines[i]) {
        if i > 0 { assert NamedLine(t, rest, later[i - 1]); }
      }
      forall i, j | 0 <= i < j < |names| ensures Before(NameOf(lines[i]), NameOf(lines[j])) {
        assert NamedLine(t, rest, later[j - 1]);
        if i == 0 { LeastIsBefore(names, NameOf(lines[j])); }
      }
    }
  }

  lemma NothingIsOneLine(t: Trailers)
    ensures Split(TrailerLines(t, {}), LF) == [[]]
  {}

  lemma FirstOfTheLines(t: Trailers, names: set<bytes>)
    requires names <= t.Keys && names != {} && ColonFree(t) && OneLineValues(t) && LF !in Least(names)
    ensures var n := Least(names); var lines := Split(TrailerLines(t, names), LF);
            && lines == [lines[0]] + Split(TrailerLines(t, names - {n}), LF)
            && NamedLine(t, names, lines[0]) && NameOf(lines[0]) == n
  {
    var n := Least(names);
    var line, after := n + [COLON] + t[n], TrailerLines(t, names - {n});
    assert TrailerLines(t, names) == line + [LF] + after;
    hide Least, TrailerLines;
    SplitOnceAt(line, LF, after);
    SplitOnceAt(n, COLON, t[n]);
  }

  lemma LeastIsBefore(names: set<bytes>, m: bytes)
    requires names != {} && m in names && m != Least(names)
    ensures Before(Least(names), m)
  {
    LexIsBytewise(Least(names), m);
  }

  function NameOf(line: bytes): bytes {
    match SplitOnce(line, COLON) case Some((name, _)) => name case None => []
  }

  /** The line of one of the names, with its value. */
  predicate NamedLine(t: Trailers, names: set<bytes>, line: bytes)
    requires names <= t.Keys
  {
    NameOf(line) in names && SplitOnce(line, COLON) == Some((NameOf(line), t[NameOf(line)]))
  }

  // ----------------------------------------- where the trailer text is ambiguous

  /** `t` is the only map with colon-free names whose signed text is that of `t`. */
  ghost predicate Determined(t: Trailers) {
    forall u :: ColonFree(u) && SignedLines(u) == SignedLines(t) ==>
      SignedNames(u) == SignedNames(t) && forall n :: n in SignedNames(t) ==> u[n] == t[n]
  }

  /** The first two lines read as one, whose value holds a line feed. */
  function Merged(t: Trailers): Trailers
    requires |SignedNames(t)| >= 2
  {
    var n := Least(SignedNames(t));
    assert SignedNames(t) != {n};
    var m := Least(SignedNames(t) - {n});
    (t - {m})[n := t[n] + NL + m + [COLON] + t[m]]
  }

  lemma {:induction false} LinesOfSame(t: Trailers, u: Trailers, names: set<bytes>)
    requires names <= t.Keys && names <= u.Keys && forall n :: n in names ==> t[n] == u[n]
    ensures TrailerLines(t, names) == TrailerLines(u, names)
    decreases |names|
  {
    if names != {} { LinesOfSame(t, u, names - {Least(names)}); }
  }

  lemma LeastOfSubset(s: set<bytes>, r: set<bytes>)
    requires r <= s && s != {} && Least(s) in r
    ensures Least(r) == Least(s)
  {
    LexAntisymmetric(Least(r), Least(s));
  }

  /** The text as its first line and the text of the other names. */
  lemma LinesUnfold(t: Trailers, names: set<bytes>, n: bytes)
    requires names <= t.Keys && names != {} && n == Least(names)
    ensures TrailerLines(t, names) == n + [COLON] + t[n] + NL + TrailerLines(t, names - {n})
  {}

  lemma MergedShape(t: Trailers, n: bytes, m: bytes)
    requires |SignedNames(t)| >= 2 && n == Least(SignedNames(t)) && m in SignedNames(t) && m != n
    requires SignedNames(t) - {n} != {} && m == Least(SignedNames(t) - {n})
    ensures var u := Merged(t);
            && SignedNames(u) == SignedNames(t) - {m}
            && n in SignedNames(u) && Least(SignedNames(u)) == n
            && u[n] == t[n] + NL + m + [COLON] + t[m]
            && (forall k :: k in SignedNames(t) && k != n && k != m ==> u[k] == t[k])
            && u.Keys == t.Keys - {m}
  {
    var u := Merged(t);
    assert u.Keys == t.Keys - {m};
    assert SignedNames(u) == SignedNames(t) - {m};
    LeastOfSubset(SignedNames(t), SignedNames(u));
  }

  lemma MergedReadsTheSame(t: Trailers)
    requires |SignedNames(t)| >= 2 && ColonFree(t)
    ensures SignedLines(Merged(t)) == SignedLines(t) && SignedNames(Merged(t)) != SignedNames(t) && ColonFree(Merged(t))
  {
    var s := SignedNames(t);
    var n := Least(s);
    assert s != {n};
    var m := Least(s - {n});
    var u := Merged(t);
    MergedShape(t, n, m);
    LinesUnfold(t, s, n);
    LinesUnfold(t, s - {n}, m);
    LinesUnfold(u, s - {m}, n);
    var rest := s - {n} - {m};
    assert (s - {m}) - {n} == rest;
    LinesOfSame(t, u, rest);
    assert ColonFree(u);
    assert m in s && m !in SignedNames(u);
    hide Least, Merged, TrailerLines, SignedNames, ColonFree;
    TwoLinesAsOne(n, t[n], m, t[m], TrailerLines(t, rest));
  }

  lemma TwoLinesAsOne(n: bytes, v: bytes, m: bytes, w: bytes, tail: bytes)
    ensures n + [COLON] + (v + NL + m + [COLON] + w) + NL + tail == n + [COLON] + v + NL + (m + [COLON] + w + NL + tail)
  {
    var x, y := v + NL, m + [COLON] + w;
    assert v + NL + m + [COLON] + w == x + y;
    assert n + [COLON] + (x + y) + NL + tail == n + [COLON] + x + (y + NL + tail);
    assert n + [COLON] + x == n + [COLON] + v + NL;
  }

  lemma OneLineIsDetermined(t: Trailers, u: Trailers)
    requires |SignedNames(t)| <= 1 && ColonFree(t) && OneLineValues(t) && ColonFree(u)
    requires SignedLines(u) == SignedLines(t)
    ensures SignedNames(u) == SignedNames(t) && forall n :: n in SignedNames(t) ==> u[n] == t[n]
  {
    var s, r := SignedNames(t), SignedNames(u);
    if s != {} && r != {} {
      var n := Least(s);
      assert |s - {n}| == 0;
      assert s == {n};
      FirstLine(t, s);
      FirstLine(u, r);
      var more := TrailerLines(u, r - {n});
      assert TrailerLines(t, s - {n}) == [];
      assert r - {n} != {} ==> more != [];
      hide TrailerLines, Least;
      OneLineFeed(u[n], more, t[n]);
    }
  }

  lemma OneLineFeed(x: bytes, more: bytes, y: bytes)
    requires x + NL + more == y + NL && LF !in y
    ensures x == y && more == []
  {
    var text := y + NL;
    assert text[|x|] == LF && text[|y|] == LF;
    assert forall i :: 0 <= i < |y| ==> text[i] == y[i] != LF;
    assert x == text[..|x|] && y == text[..|y|];
  }

  /**
    Among trailers with one-line values a signature picks one; among all trailers that the
    parser can deliver it does so exactly if at most one trailer is signed, because a
    value may hold a line feed that reads as the end of its line.
  */
  lemma WhenTrailersAreDetermined(t: Trailers)
    requires ColonFree(t) && OneLineValues(t)
    ensures Determined(t) <==> |SignedNames(t)| <= 1
  {
    if |SignedNames(t)| <= 1 {
      forall u | ColonFree(u) && SignedLines(u) == SignedLines(t)
        ensures SignedNames(u) == SignedNames(t) && forall n :: n in SignedNames(t) ==> u[n] == t[n]
      {
        OneLineIsDetermined(t, u);
      }
    } else {
      MergedReadsTheSame(t);
    }
  }

  /** Such a value is really read: `a:1`, a line feed and `b:2` are one line of the body. */
  lemma LineFeedInsideAValue()
    ensures AddTrailer(map[], [97, COLON, 49, LF, 98, COLON, 50]) == Ok(map[[97] := [49, LF, 98, COLON, 50]])
  {
    var name: bytes, value: bytes := [97], [49, LF, 98, COLON, 50];
    SplitOnceAt(name, COLON, value);
    assert [97, COLON, 49, LF, 98, COLON, 50] == name + [COLON] + value;
    hide SplitOnce, Trim;
    VisibleEndsStay(name);
    VisibleEndsStay(value);
    assert Lower(name) == name;
  }

  // --------------------------------------------------------- whole signed uploads

  lemma {:induction false} TrimStartTakes(s: bytes, c: byte)
    ensures c in TrimStart(s) ==> c in s
  {
    if WhiteHead(s) > 0 { TrimStartTakes(s[WhiteHead(s)..], c); }
  }

  lemma {:induction false} TrimEndTakes(s: bytes, c: byte)
    ensures c in TrimEnd(s) ==> c in s
  {
    if WhiteTail(s) > 0 { TrimEndTakes(s[..|s| - WhiteTail(s)], c); }
  }

  lemma AddedNameIsColonFree(t: Trailers, line: bytes)
    requires ColonFree(t) && AddTrailer(t, line).Ok?
    ensures ColonFree(AddTrailer(t, line).value)
  {
    hide TrimStart, TrimEnd;
    var (name, _) := SplitOnce(line, COLON).value;
    TrimStartTakes(name, COLON);
    TrimEndTakes(TrimStart(name), COLON);
    var trimmed := Trim(name);
    assert COLON !in trimmed;
    assert forall i :: 0 <= i < |trimmed| ==> Lower(trimmed)[i] != COLON;
  }

  lemma {:induction false} SectionIsColonFree(b: bytes, data: bytes, t: Trailers)
    requires ColonFree(t) && DecodeTrailers(b, data, t).Ok?
    ensures ColonFree(DecodeTrailers(b, data, t).value.trailers)
    decreases |b|
  {
    hide AddTrailer;
    var (line, rest) := ReadLine(b).value;
    if line != [] {
      AddedNameIsColonFree(t, line);
      SectionIsColonFree(rest, data, AddTrailer(t, line).value);
    }
  }

  lemma {:induction false} DecodedIsColonFree(b: bytes, data: bytes)
    requires DecodeChunks(b, data).Ok?
    ensures ColonFree(DecodeChunks(b, data).value.trailers)
    decreases |b|
  {
    hide DecodeTrailers, ParseSize;
    var (line, rest) := ReadLine(b).value;
    var size := ParseSize(line).value;
    if size == 0 {
      SectionIsColonFree(rest, data, map[]);
    } else {
      var (chunk, after) := TakeChunk(rest, size).value;
      DecodedIsColonFree(after, data + chunk);
    }
  }

  lemma ReadNamesAreColonFree(env: Env, verifier: Option<Verifier>, frames: seq<bytes>)
    requires Run(env, Fresh(verifier), frames).Finished?
    ensures ColonFree(Run(env, Fresh(verifier), frames).config.trailers)
  {
    hide Run, DecodeChunks;
    StreamingRefinesOneShot(env, verifier, frames);
    DecodedIsColonFree(Flatten(frames), []);
  }

  /**
    Two accepted uploads signed from one seed whose chunks carry the same signatures have
    the same chunks; in trailer mode, with the same trailer signature and one-line values,
    they have the same trailers too.
  */
  lemma SameSignaturesSameUpload(env: Env, seed: Verifier, f: seq<bytes>, g: seq<bytes>)
    requires LosesNothing(env.crypto)
    requires Run(env, Fresh(Some(seed)), f).Finished? && Run(env, Fresh(Some(seed)), g).Finished?
    requires SameSignatures(Run(env, Fresh(Some(seed)), f).config.log, Run(env, Fresh(Some(seed)), g).config.log)
    ensures var a, b := Run(env, Fresh(Some(seed)), f).config, Run(env, Fresh(Some(seed)), g).config;
            && a.log == b.log
            && (seed.mode == SignedPayloadTrailer && OneLineValues(a.trailers) && OneLineValues(b.trailers) ==>
                 && TRAILER_SIGNATURE in a.trailers && TRAILER_SIGNATURE in b.trailers
                 && (a.trailers[TRAILER_SIGNATURE] == b.trailers[TRAILER_SIGNATURE] ==> a.trailers == b.trailers))
  {
    hide Run, LosesNothing, Chained, ColonFree, OneLineValues, SameSignatures, TrailerStringToSign, ExpectedSignature;
    FreshIsLinked(env, seed);
    RunSigned(env, seed, Fresh(Some(seed)), f);
    RunSigned(env, seed, Fresh(Some(seed)), g);
    var a, b := Run(env, Fresh(Some(seed)), f).config, Run(env, Fresh(Some(seed)), g).config;
    SameSignaturesSameChunks(env.crypto, seed, a.log, b.log);
    ReadNamesAreColonFree(env, Some(seed), f);
    ReadNamesAreColonFree(env, Some(seed), g);
    var v := After(env.crypto, seed, a.log);
    if seed.mode == SignedPayloadTrailer && OneLineValues(a.trailers) && OneLineValues(b.trailers) {
      assert TrailerSignatureMatches(env.crypto, v, a.trailers) && TrailerSignatureMatches(env.crypto, v, b.trailers);
      if a.trailers[TRAILER_SIGNATURE] == b.trailers[TRAILER_SIGNATURE] {
        SameSignatureSameTrailers(env.crypto, v, a.trailers, b.trailers);
      }
    }
  }

  lemma FreshIsLinked(env: Env, seed: Verifier)
    ensures Linked(env, seed, Fresh(Some(seed)))
  {}
}
