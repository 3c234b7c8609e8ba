/** What an accepted upload guarantees about the bytes that arrived. */
module UploadProofs {
  import opened Bytes
  import opened AwsChunked
  import opened ChunkSignatures
  import opened StreamingSpec
  import opened StreamingProofs
  import opened FramingProofs
  import opened Checksums
  import opened UploadBody

  /** No accepted body exceeds the limit, whatever its framing or signature mode. */
  lemma ArrivedWithinLimit(
      env: Env, h: Headers, body: Body, signing: Option<Verifier>, data: bytes, t: Trailers)
    requires BodyArrived(env, h, body, signing, data, t) && env.maxDecodedSize < U64_MAX
    ensures |data| <= env.maxDecodedSize
  {
    hide ModeFitsFraming, IsAwsChunked, SignatureVerifier, DecodedContentLength, ContentLength, Run, Drain, Payload;
    if IsAwsChunked(h) {
      var c := Fresh(SignatureVerifier(h, signing).value);
      var k := RunIsOnePush(env, c, body.frames);
      PayloadOfNothing();
      FinishedIsGood(env, c.Feed(Flatten(body.frames[..k])));
    }
  }

  /** An accepted chunked body is what the one-shot decoder finds in the request. */
  lemma ArrivedIsDecoded(
      env: Env, h: Headers, body: Body, signing: Option<Verifier>, data: bytes, t: Trailers)
    requires IsAwsChunked(h) && BodyArrived(env, h, body, signing, data, t)
    ensures WithoutRest(Decode(Flatten(body.frames))) == Ok(DecodedAwsChunkedBody(data, t))
  {
    hide ModeFitsFraming, IsAwsChunked, SignatureVerifier, DecodedContentLength, Run, Decode, Flatten, Payload;
    StreamingRefinesOneShot(env, SignatureVerifier(h, signing).value, body.frames);
  }

  /** A checksum under this name, in a header or a trailer, is that of the data. */
  ghost predicate TrueUnder(lib: Library, h: Headers, t: Trailers, name: string, a: Algorithm, data: bytes) {
    && (Values(h, Ascii(name)) != [] ==> lib.base64(Values(h, Ascii(name))[0]) == Some(lib.digest(a, data)))
    && (Values(h, Ascii(name)) == [] && Ascii(name) in t ==> lib.base64(t[Ascii(name)]) == Some(lib.digest(a, data)))
  }

  /** The header names by which an accepted upload's checksums were compared. */
  lemma ChecksumsByName(lib: Library, h: Headers, t: Trailers, data: bytes)
    requires Genuine(lib, h, t, data)
    ensures TrueUnder(lib, h, t, "content-md5", Md5, data)
    ensures TrueUnder(lib, h, t, "x-amz-checksum-crc32", Crc32, data)
    ensures TrueUnder(lib, h, t, "x-amz-checksum-crc32c", Crc32c, data)
    ensures TrueUnder(lib, h, t, "x-amz-checksum-sha1", Sha1, data)
    ensures TrueUnder(lib, h, t, "x-amz-checksum-sha256", Sha256, data)
    ensures TrueUnder(lib, h, t, "x-amz-checksum-sha512", Sha512, data)
  {
    hide Ascii, Values, NeedsSha256;
    assert forall a :: Supplied(h, t, a).Some? ==> lib.base64(Supplied(h, t, a).value) == Some(lib.digest(a, data));
    assert HeaderName(Md5) == Ascii("content-md5") && HeaderName(Crc32) == Ascii("x-amz-checksum-crc32");
    assert HeaderName(Crc32c) == Ascii("x-amz-checksum-crc32c") && HeaderName(Sha1) == Ascii("x-amz-checksum-sha1");
    assert HeaderName(Sha256) == Ascii("x-amz-checksum-sha256") && HeaderName(Sha512) == Ascii("x-amz-checksum-sha512");
  }

  /** An accepted upload that names an SDK algorithm, in any case, supplies the checksum of that name. */
  lemma SdkAlgorithmIsSupplied(lib: Library, h: Headers, t: Trailers, v: bytes)
    requires RequestAcceptable(lib, h, t) && Values(h, Ascii("x-amz-sdk-checksum-algorithm")) == [v]
    ensures var name := Ascii("x-amz-checksum-") + Lower(v);
            IsChecksumName(name) && (Values(h, name) != [] || name in t)
  {
    assert SdkAlgorithmServed(h, t);
    hide RequestAcceptable, Values, Lower, IsAwsChunked;
    var a :| a in CHECKSUM_NAMES && SdkName(a) == Lower(v) && Supplied(h, t, a).Some?;
    SdkNameIsSuffix(a);
  }

  lemma SdkNameIsSuffix(a: Algorithm)
    requires a in CHECKSUM_NAMES
    ensures HeaderName(a) == Ascii("x-amz-checksum-") + SdkName(a)
  {
    hide Ascii;
    var prefix := "x-amz-checksum-";
    match a
    case Crc32 => assert prefix + "crc32" == "x-amz-checksum-crc32"; SplitLiteral(prefix, "crc32");
    case Crc32c => assert prefix + "crc32c" == "x-amz-checksum-crc32c"; SplitLiteral(prefix, "crc32c");
    case Sha1 => assert prefix + "sha1" == "x-amz-checksum-sha1"; SplitLiteral(prefix, "sha1");
    case Sha256 => assert prefix + "sha256" == "x-amz-checksum-sha256"; SplitLiteral(prefix, "sha256");
    case Sha512 => assert prefix + "sha512" == "x-amz-checksum-sha512"; SplitLiteral(prefix, "sha512");
    case Md5 => assert false;
  }

  lemma SplitLiteral(a: string, b: string)
    ensures Ascii(a + b) == Ascii(a) + Ascii(b)
  {}

  /** An acceptable request states a checksum of this name at most once, and it decodes to that many bytes. */
  ghost predicate StatedOnce(lib: Library, h: Headers, t: Trailers, name: string, length: nat) {
    var n := Ascii(name);
    && |Values(h, n)| <= 1
    && (Values(h, n) != [] ==> lib.base64(Values(h, n)[0]).Some? && |lib.base64(Values(h, n)[0]).value| == length)
    && (Values(h, n) == [] && n in t ==> lib.base64(t[n]).Some? && |lib.base64(t[n]).value| == length)
  }

  /** What acceptable requests never hold, by name: checksums unsupported, repeated, or of the wrong length. */
  lemma AcceptableByName(lib: Library, h: Headers, t: Trailers)
    requires RequestAcceptable(lib, h, t)
    ensures forall name :: name in ["x-amz-checksum-crc64nvme", "x-amz-checksum-xxhash64",
                                    "x-amz-checksum-xxhash3", "x-amz-checksum-xxhash128"] ==>
              Values(h, Ascii(name)) == [] && Ascii(name) !in t
    ensures StatedOnce(lib, h, t, "content-md5", 16) && StatedOnce(lib, h, t, "x-amz-checksum-crc32", 4)
    ensures StatedOnce(lib, h, t, "x-amz-checksum-crc32c", 4) && StatedOnce(lib, h, t, "x-amz-checksum-sha1", 20)
    ensures StatedOnce(lib, h, t, "x-amz-checksum-sha256", 32) && StatedOnce(lib, h, t, "x-amz-checksum-sha512", 64)
    ensures forall name :: name in ["x-amz-checksum-crc32", "x-amz-checksum-crc32c", "x-amz-checksum-sha1",
                                    "x-amz-checksum-sha256", "x-amz-checksum-sha512"] ==>
              !(Values(h, Ascii(name)) != [] && Ascii(name) in t)
  {
    hide Ascii, Values, TrailersDeclared, SdkAlgorithmServed, VisibleAscii;
    forall a ensures a in ALL && (a != Md5 ==> a in CHECKSUM_NAMES) { EveryAlgorithmIsListed(a); }
    assert forall a :: a in ALL ==> Readable(lib, h, t, a) && |Values(h, HeaderName(a))| <= 1;
    UnsupportedAreNot(h, t);
    StatedOnceOf(lib, h, t, Md5);
    StatedOnceOf(lib, h, t, Crc32);
    StatedOnceOf(lib, h, t, Crc32c);
    StatedOnceOf(lib, h, t, Sha1);
    StatedOnceOf(lib, h, t, Sha256);
    StatedOnceOf(lib, h, t, Sha512);
  }

  lemma UnsupportedAreNot(h: Headers, t: Trailers)
    requires NoUnsupported(h, t)
    ensures forall name :: name in ["x-amz-checksum-crc64nvme", "x-amz-checksum-xxhash64",
                                    "x-amz-checksum-xxhash3", "x-amz-checksum-xxhash128"] ==>
              Values(h, Ascii(name)) == [] && Ascii(name) !in t
  {
    hide Ascii, Values;
    assert UNSUPPORTED[0] == Ascii("x-amz-checksum-crc64nvme") && UNSUPPORTED[1] == Ascii("x-amz-checksum-xxhash64");
    assert UNSUPPORTED[2] == Ascii("x-amz-checksum-xxhash3") && UNSUPPORTED[3] == Ascii("x-amz-checksum-xxhash128");
  }

  lemma StatedOnceOf(lib: Library, h: Headers, t: Trailers, a: Algorithm)
    requires Readable(lib, h, t, a) && |Values(h, HeaderName(a))| <= 1
    requires a != Md5 ==> !(Values(h, HeaderName(a)) != [] && HeaderName(a) in t)
    ensures match a
            case Md5 => StatedOnce(lib, h, t, "content-md5", 16)
            case Crc32 => StatedOnce(lib, h, t, "x-amz-checksum-crc32", 4)
            case Crc32c => StatedOnce(lib, h, t, "x-amz-checksum-crc32c", 4)
            case Sha1 => StatedOnce(lib, h, t, "x-amz-checksum-sha1", 20)
            case Sha256 => StatedOnce(lib, h, t, "x-amz-checksum-sha256", 32)
            case Sha512 => StatedOnce(lib, h, t, "x-amz-checksum-sha512", 64)
  {
    hide Ascii, Values, VisibleAscii;
  }

  /** An accepted body has the one length its headers declare, and its framing is the one its payload hash announces. */
  lemma ArrivedAsDeclared(
      env: Env, h: Headers, body: Body, signing: Option<Verifier>, data: bytes, t: Trailers, n: nat)
    requires BodyArrived(env, h, body, signing, data, t) && n <= U64_MAX
    ensures |Values(h, Ascii("x-amz-content-sha256"))| <= 1
    ensures Announces(h, "UNSIGNED-PAYLOAD") || Values(h, Ascii("x-amz-content-sha256")) == [] ==> !IsAwsChunked(h)
    ensures Announces(h, "STREAMING-UNSIGNED-PAYLOAD-TRAILER") ==> IsAwsChunked(h)
    ensures Announces(h, "STREAMING-AWS4-HMAC-SHA256-PAYLOAD") ==> IsAwsChunked(h)
    ensures Announces(h, "STREAMING-AWS4-HMAC-SHA256-PAYLOAD-TRAILER") ==> IsAwsChunked(h)
    ensures IsAwsChunked(h) ==> |Values(h, Ascii("x-amz-decoded-content-length"))| == 1
    ensures Values(h, Ascii("x-amz-decoded-content-length")) == [Decimal(n)] && IsAwsChunked(h) ==> |data| == n
    ensures Values(h, Ascii("content-length")) == [Decimal(n)] && !IsAwsChunked(h) ==> |data| == n
  {
    AnnouncedModes(h);
    DecimalDigits(n);
    hide Ascii, Decimal, Announces, IsAwsChunked, Run, Payload, Flatten, LowerHex64, HexDecode, Values;
  }
}
