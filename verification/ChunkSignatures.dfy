/**
  SigV4 streaming signatures (src/body/upload.rs): every chunk signs the signature
  before it, the trailer block signs the last chunk's. SHA-256 and HMAC are
  arbitrary functions, so everything proved holds whatever they are.
*/
module ChunkSignatures {
  import opened Bytes
  import opened AwsChunked

  /** Hex digest of a byte string, and hex HMAC of a message under a key. */
  datatype Crypto = Crypto(sha256Hex: bytes -> bytes, hmacHex: (bytes, bytes) -> bytes)

  datatype SignatureMode = SignedPayload | SignedPayloadTrailer

  datatype Verifier = Verifier(
    key: bytes, previous: bytes, date: bytes, scope: bytes, mode: SignatureMode)

  /** A chunk as received: its payload and the signature its header line carried. */
  datatype Chunk = Chunk(data: bytes, signature: Option<bytes>)

  const NL: bytes := [LF]
  const TRAILER_SIGNATURE: bytes := Ascii("x-amz-trailer-signature")

  function ChunkStringToSign(crypto: Crypto, v: Verifier, data: bytes): bytes {
    Ascii("AWS4-HMAC-SHA256-PAYLOAD") + NL + v.date + NL + v.scope + NL + v.previous + NL
    + crypto.sha256Hex([]) + NL + crypto.sha256Hex(data)
  }

  function ChunkSignature(crypto: Crypto, v: Verifier, data: bytes): bytes {
    crypto.hmacHex(v.key, ChunkStringToSign(crypto, v, data))
  }

  /** `AwsChunkSignatureVerifier::verify`: the verifier after accepting a chunk, or None. */
  function Verify(crypto: Crypto, v: Verifier, chunk: Chunk): Option<Verifier> {
    if chunk.signature.Some? && chunk.signature.value == ChunkSignature(crypto, v, chunk.data)
    then Some(v.(previous := chunk.signature.value))
    else None
  }

  // ------------------------------------------------------------ trailer signature

  lemma {:induction false} FindLeast(s: set<bytes>) returns (m: bytes)
    requires s != {}
    ensures m in s && forall y :: y in s ==> LexLeq(m, y)
    decreases |s|
  {
    var a :| a in s;
    var rest := s - {a};
    assert forall y :: y in s ==> y == a || y in rest;
    LexTotal(a, a);
    if rest == {} {
      m := a;
    } else {
      m := FindLeast(rest);
      LexTotal(a, m);
      if LexLeq(a, m) {
        forall y | y in rest ensures LexLeq(a, y) { LexTransitive(a, m, y); }
        m := a;
      }
    }
  }

  lemma LeastExists(s: set<bytes>)
    requires s != {}
    ensures exists x :: x in s && forall y :: y in s ==> LexLeq(x, y)
  {
    var m := FindLeast(s);
  }

  lemma LeastUnique(s: set<bytes>)
    ensures forall x, y :: x in s && y in s && LexLeq(x, y) && LexLeq(y, x) ==> x == y
  {
    forall x, y | x in s && y in s && LexLeq(x, y) && LexLeq(y, x) ensures x == y {
      LexAntisymmetric(x, y);
    }
  }

  function Least(s: set<bytes>): (r: bytes)
    requires s != {}
    ensures r in s && forall y :: y in s ==> LexLeq(r, y)
  {
    LeastExists(s);
    LeastUnique(s);
    var x :| x in s && forall y | y in s :: LexLeq(x, y);
    x
  }

  /** `name:value` lines in name order, as iterating a BTreeMap gives them. */
  function TrailerLines(trailers: Trailers, names: set<bytes>): bytes
    requires names <= trailers.Keys
    decreases |names|
  {
    if names == {} then []
    else
      var n := Least(names);
      n + [COLON] + trailers[n] + NL + TrailerLines(trailers, names - {n})
  }

  function TrailerStringToSign(crypto: Crypto, v: Verifier, trailers: Trailers): bytes {
    Ascii("AWS4-HMAC-SHA256-TRAILER") + NL + v.date + NL + v.scope + NL + v.previous + NL
    + crypto.sha256Hex(TrailerLines(trailers, trailers.Keys - {TRAILER_SIGNATURE}))
  }

  predicate TrailerSignatureMatches(crypto: Crypto, v: Verifier, trailers: Trailers) {
    && TRAILER_SIGNATURE in trailers
    && trailers[TRAILER_SIGNATURE] == crypto.hmacHex(v.key, TrailerStringToSign(crypto, v, trailers))
  }

  /** `verify_trailer`: only the trailer mode looks at the trailers at all. */
  function VerifyTrailer(crypto: Crypto, v: Verifier, trailers: Trailers): Option<Verifier> {
    if v.mode != SignedPayloadTrailer then Some(v)
    else if TrailerSignatureMatches(crypto, v, trailers)
    then Some(v.(previous := trailers[TRAILER_SIGNATURE]))
    else None
  }

  // --------------------------------------------------------------------- the chain

  /** The signature each chunk must carry, computed from the seed alone. */
  function ExpectedSignature(crypto: Crypto, seed: Verifier, chunks: seq<Chunk>): bytes {
    if chunks == [] then seed.previous
    else
      var n := |chunks| - 1;
      ChunkSignature(crypto, seed.(previous := ExpectedSignature(crypto, seed, chunks[..n])), chunks[n].data)
  }

  /** Every chunk carries exactly the signature that links it to the seed. */
  predicate Chained(crypto: Crypto, seed: Verifier, chunks: seq<Chunk>) {
    forall i :: 0 <= i < |chunks| ==>
      chunks[i].signature == Some(ExpectedSignature(crypto, seed, chunks[..i + 1]))
  }

  /** The verifier state a chained history leads to. */
  function After(crypto: Crypto, seed: Verifier, chunks: seq<Chunk>): Verifier {
    seed.(previous := ExpectedSignature(crypto, seed, chunks))
  }

  /** Accepting one more chunk is exactly extending the chain by it. */
  lemma VerifyExtendsChain(crypto: Crypto, seed: Verifier, chunks: seq<Chunk>, chunk: Chunk)
    requires Chained(crypto, seed, chunks)
    ensures Verify(crypto, After(crypto, seed, chunks), chunk).Some? <==> Chained(crypto, seed, chunks + [chunk])
    ensures Verify(crypto, After(crypto, seed, chunks), chunk).Some? ==>
              Verify(crypto, After(crypto, seed, chunks), chunk).value == After(crypto, seed, chunks + [chunk])
  {
    var all := chunks + [chunk];
    assert all[..|chunks|] == chunks && all[..|all|] == all;
    forall i | 0 <= i < |chunks|
      ensures all[..i + 1] == chunks[..i + 1] && all[i] == chunks[i]
    {}
    if Chained(crypto, seed, all) {
      assert all[|chunks|].signature == Some(ExpectedSignature(crypto, seed, all[..|chunks| + 1]));
    }
  }

  /** A prefix of a chained history is chained. */
  lemma ChainPrefix(crypto: Crypto, seed: Verifier, chunks: seq<Chunk>, n: nat)
    requires n <= |chunks| && Chained(crypto, seed, chunks)
    ensures Chained(crypto, seed, chunks[..n])
  {
    forall i | 0 <= i < n
      ensures chunks[..n][i].signature == Some(ExpectedSignature(crypto, seed, chunks[..n][..i + 1]))
    {
      assert chunks[..n][..i + 1] == chunks[..i + 1];
    }
  }

  function Payload(chunks: seq<Chunk>): bytes {
    if chunks == [] then [] else Payload(chunks[..|chunks| - 1]) + chunks[|chunks| - 1].data
  }

  lemma PayloadOfNothing()
    ensures Payload([]) == []
  {}

  lemma PayloadAppend(chunks: seq<Chunk>, chunk: Chunk)
    ensures Payload(chunks + [chunk]) == Payload(chunks) + chunk.data
  {
    assert (chunks + [chunk])[..|chunks|] == chunks;
  }
}
