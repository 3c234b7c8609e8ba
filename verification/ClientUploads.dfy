/**
  Uploads as clients make them, from the header text on. Whatever the way of signing, the
  place of the checksum and the framing, a request that says only true things about its
  data is accepted, and exactly the data is written.
*/
module ClientUploads {
  import opened Bytes
  import opened AwsChunked
  import opened ChunkSignatures
  import opened StreamingSpec
  import opened FramingProofs
  import opened SignatureProofs
  import opened SigningProofs
  import opened ChunkEncoder
  import opened Checksums
  import opened UploadBody

  /** How a body is sent: plain, or in chunks, with or without signatures. */
  datatype Sending =
    | Plain
    | Hashed
    | Unsigned
    | SignedChunked(seed: Verifier)
    | SignedWithTrailer(seed: Verifier)

  datatype Place = Nowhere | InHeader(algorithm: Algorithm) | InTrailer(algorithm: Algorithm)

  /** Digests of the usual lengths, and base64 that decodes and can stand in a header. */
  ghost predicate UsualLibrary(lib: Library) {
    && LawfulBase64(lib)
    && (forall x :: |lib.digest(Md5, x)| == 16 && |lib.digest(Crc32, x)| == 4 && |lib.digest(Crc32c, x)| == 4)
    && (forall x :: |lib.digest(Sha1, x)| == 20 && |lib.digest(Sha256, x)| == 32 && |lib.digest(Sha512, x)| == 64)
    && (forall x :: VisibleText(lib.encode64(x)))
  }

  /** Text without spaces, short enough for a control line. */
  predicate VisibleText(s: bytes) { 0 < |s| < 128 && forall i :: 0 <= i < |s| ==> 32 < s[i] < 127 }

  // -------------------------------------------------------------------- headers

  const ENCODING: bytes := Ascii("content-encoding")
  const PAYLOAD_HASH: bytes := Ascii("x-amz-content-sha256")
  const LENGTH: bytes := Ascii("content-length")
  const DECODED_LENGTH: bytes := Ascii("x-amz-decoded-content-length")

  function HashText(lib: Library, sending: Sending, data: bytes): bytes {
    match sending
    case Plain => Ascii("UNSIGNED-PAYLOAD")
    case Hashed => HexEncode(lib.digest(Sha256, data))
    case Unsigned => Ascii("STREAMING-UNSIGNED-PAYLOAD-TRAILER")
    case SignedChunked(_) => Ascii("STREAMING-AWS4-HMAC-SHA256-PAYLOAD")
    case SignedWithTrailer(_) => Ascii("STREAMING-AWS4-HMAC-SHA256-PAYLOAD-TRAILER")
  }

  predicate Chunked(sending: Sending) { !sending.Plain? && !sending.Hashed? }

  /** Headers by what their names are for. */
  function HeadersUnder(
      encoding: bytes, payloadHash: bytes, length: bytes, decodedLength: bytes,
      chunked: bool, hash: bytes, size: bytes): Headers
  {
    if chunked
    then map[encoding := [Ascii("aws-chunked")], payloadHash := [hash], decodedLength := [size]]
    else map[payloadHash := [hash], length := [size]]
  }

  function BodyHeaders(lib: Library, sending: Sending, data: bytes): Headers {
    HeadersUnder(
      ENCODING, PAYLOAD_HASH, LENGTH, DECODED_LENGTH, Chunked(sending), HashText(lib, sending, data), Decimal(|data|))
  }

  function ChecksumText(lib: Library, a: Algorithm, data: bytes): bytes { lib.encode64(lib.digest(a, data)) }

  function RequestHeaders(lib: Library, sending: Sending, place: Place, data: bytes): Headers {
    var h := BodyHeaders(lib, sending, data);
    match place
    case Nowhere => h
    case InHeader(a) => h[HeaderName(a) := [ChecksumText(lib, a, data)]]
    case InTrailer(a) => h[TRAILER_HEADER := [HeaderName(a)]]
  }

  /** The names a client uses are all different, and none is that of an unsupported checksum. */
  lemma NamesDiffer(a: Algorithm, b: Algorithm)
    ensures ENCODING !in {PAYLOAD_HASH, LENGTH, DECODED_LENGTH, TRAILER_HEADER, SDK_ALGORITHM_HEADER, HeaderName(a)}
    ensures PAYLOAD_HASH !in {LENGTH, DECODED_LENGTH, TRAILER_HEADER, SDK_ALGORITHM_HEADER, HeaderName(a)}
    ensures LENGTH !in {DECODED_LENGTH, TRAILER_HEADER, SDK_ALGORITHM_HEADER, HeaderName(a)}
    ensures DECODED_LENGTH !in {TRAILER_HEADER, SDK_ALGORITHM_HEADER, HeaderName(a)}
    ensures TRAILER_HEADER !in {SDK_ALGORITHM_HEADER, HeaderName(a)} && SDK_ALGORITHM_HEADER != HeaderName(a)
    ensures TRAILER_SIGNATURE != HeaderName(a)
    ensures a != b ==> HeaderName(a) != HeaderName(b)
  {
    assert |ENCODING| == 16 && |PAYLOAD_HASH| == 20 && |LENGTH| == 14 && |DECODED_LENGTH| == 28;
    assert |TRAILER_HEADER| == 13 && |SDK_ALGORITHM_HEADER| == 28 && |TRAILER_SIGNATURE| == 23;
    assert DECODED_LENGTH[6] != SDK_ALGORITHM_HEADER[6];
    assert |HeaderName(a)| == 20 ==> HeaderName(a)[7] != PAYLOAD_HASH[7];
    assert |HeaderName(a)| in {11, 19, 20, 21};
    if HeaderName(a) == HeaderName(b) { HeaderNamesDiffer(a, b); }
  }

  // ------------------------------------------------------- headers as they are read

  lemma ChunkedEncodingIsSeen(h: Headers)
    requires Values(h, ENCODING) == [Ascii("aws-chunked")]
    ensures IsAwsChunked(h)
  {
    var text := Ascii("aws-chunked");
    VisibleLiteral("aws-chunked");
    assert Lower(text) == text;
    assert forall i :: 0 <= i < |text| ==> text[i] != 44;
    hide Trim, VisibleAscii;
    VisibleEndsStay(text);
    hide Lower, Ascii;
    assert Split(text, 44) == [text];
    assert text in Split(text, 44);
  }

  lemma LengthIsRead(n: nat)
    requires n <= U64_MAX
    ensures ParseLength([Decimal(n)]) == Some(Some(n))
  {
    DecimalDigits(n);
    hide Decimal;
  }

  /** Hexadecimal text of a hash is lower case and decodes to it. */
  lemma HexRoundTrip(d: bytes)
    requires |d| == 32
    ensures LowerHex64(HexEncode(d)) && HexDecode(HexEncode(d)) == d
  {
    var text := HexEncode(d);
    HexIsLower(d);
    hide HexEncode, DigitValue, HexDigit;
    forall i | 0 <= i < 32 ensures HexDecode(text)[i] == d[i] {
      HexAt(d, i);
    }
    assert |HexDecode(text)| == 32;
  }

  /** A hash in hexadecimal is taken for that hash. */
  lemma HashIsRead(h: Headers, digest: bytes)
    requires |digest| == 32 && Values(h, PAYLOAD_HASH) == [HexEncode(digest)]
    ensures PayloadMode(h) == Some(FixedSha256(digest))
  {
    var text := HexEncode(digest);
    HexRoundTrip(digest);
    assert |text| == 64 && VisibleAscii(text);
    hide HexEncode, HexDecode, LowerHex64, VisibleAscii;
    assert |Ascii("UNSIGNED-PAYLOAD")| == 16 && |Ascii("STREAMING-AWS4-HMAC-SHA256-PAYLOAD")| == 34;
    assert |Ascii("STREAMING-AWS4-HMAC-SHA256-PAYLOAD-TRAILER")| == 42;
    assert |Ascii("STREAMING-UNSIGNED-PAYLOAD-TRAILER")| == 34;
  }

  /** The headers under different names hold what was put there. */
  lemma ValuesUnder(
      encoding: bytes, payloadHash: bytes, length: bytes, decodedLength: bytes,
      chunked: bool, hash: bytes, size: bytes, more: bytes, text: bytes, name: bytes)
    requires encoding !in {payloadHash, length, decodedLength, more}
    requires payloadHash !in {length, decodedLength, more} && length !in {decodedLength, more} && decodedLength != more
    ensures var base := HeadersUnder(encoding, payloadHash, length, decodedLength, chunked, hash, size);
            var h := base[more := [text]];
            && Values(h, payloadHash) == Values(base, payloadHash) == [hash]
            && Values(h, encoding) == Values(base, encoding) == (if chunked then [Ascii("aws-chunked")] else [])
            && (chunked ==> Values(h, decodedLength) == Values(base, decodedLength) == [size])
            && (!chunked ==> Values(h, length) == Values(base, length) == [size])
            && Values(h, more) == [text]
            && (name !in {encoding, payloadHash, length, decodedLength} ==> Values(base, name) == [])
            && (name !in {encoding, payloadHash, length, decodedLength, more} ==> Values(h, name) == [])
  {
    hide Ascii;
  }

  /** A name that the headers about the body do not use. */
  predicate OtherName(name: bytes) { name !in {ENCODING, PAYLOAD_HASH, LENGTH, DECODED_LENGTH} }

  /** The one header that a stated or announced checksum adds, if any. */
  function MoreName(place: Place): bytes {
    match place case InHeader(a) => HeaderName(a) case _ => TRAILER_HEADER
  }

  function MoreText(lib: Library, place: Place, data: bytes): bytes {
    match place
    case InHeader(a) => ChecksumText(lib, a, data)
    case InTrailer(a) => HeaderName(a)
    case Nowhere => []
  }

  lemma NamesInUse(place: Place)
    ensures ENCODING !in {PAYLOAD_HASH, LENGTH, DECODED_LENGTH, MoreName(place)}
    ensures PAYLOAD_HASH !in {LENGTH, DECODED_LENGTH, MoreName(place)}
    ensures LENGTH !in {DECODED_LENGTH, MoreName(place)} && DECODED_LENGTH != MoreName(place)
    ensures place.InHeader? ==> TRAILER_HEADER != MoreName(place)
    ensures OtherName(TRAILER_HEADER)
  {
    hide HeaderName, Ascii;
    NamesDiffer(if place.InHeader? then place.algorithm else Md5, Md5);
  }

  lemma OtherValues(lib: Library, sending: Sending, place: Place, data: bytes, name: bytes)
    requires OtherName(name) && name != MoreName(place)
    ensures Values(RequestHeaders(lib, sending, place, data), name) == []
  {
    NamesInUse(place);
    hide HashText, Decimal, HeaderName, Ascii, ChecksumText, HeadersUnder, Values;
    ValuesUnder(
      ENCODING, PAYLOAD_HASH, LENGTH, DECODED_LENGTH, Chunked(sending), HashText(lib, sending, data), Decimal(|data|),
      MoreName(place), MoreText(lib, place, data), name);
  }

  /** The header values of a request, whatever checksum it states. */
  lemma RequestValues(lib: Library, sending: Sending, place: Place, data: bytes)
    ensures var h := RequestHeaders(lib, sending, place, data);
            && Values(h, PAYLOAD_HASH) == [HashText(lib, sending, data)]
            && Values(h, ENCODING) == (if Chunked(sending) then [Ascii("aws-chunked")] else [])
            && (Chunked(sending) ==> Values(h, DECODED_LENGTH) == [Decimal(|data|)])
            && (!Chunked(sending) ==> Values(h, LENGTH) == [Decimal(|data|)])
            && (!place.Nowhere? ==> Values(h, MoreName(place)) == [MoreText(lib, place, data)])
            && (place.Nowhere? ==> Values(h, TRAILER_HEADER) == [])
  {
    NamesInUse(place);
    hide HashText, Decimal, HeaderName, Ascii, ChecksumText, HeadersUnder, Values;
    ValuesUnder(
      ENCODING, PAYLOAD_HASH, LENGTH, DECODED_LENGTH, Chunked(sending), HashText(lib, sending, data), Decimal(|data|),
      MoreName(place), MoreText(lib, place, data), TRAILER_HEADER);
  }

  // --------------------------------------------------- the framing of the request

  /** The request is read as it was meant: framing, payload hash mode and length. */
  lemma RequestIsRead(lib: Library, sending: Sending, place: Place, data: bytes)
    requires UsualLibrary(lib) && |data| <= U64_MAX
    ensures var h := RequestHeaders(lib, sending, place, data);
            && (IsAwsChunked(h) <==> Chunked(sending))
            && PayloadMode(h) == Some(ModeOf(lib, sending, data))
            && (Chunked(sending) ==> DecodedContentLength(h) == Some(Some(|data|)))
            && (!Chunked(sending) ==> ContentLength(h) == Some(Some(|data|)))
  {
    var h := RequestHeaders(lib, sending, place, data);
    RequestValues(lib, sending, place, data);
    LengthIsRead(|data|);
    AnnouncedModes(h);
    hide RequestHeaders, Decimal, ParseLength;
    if sending.Hashed? { HashIsRead(h, lib.digest(Sha256, data)); }
    hide PayloadMode, HexEncode;
    if Chunked(sending) { ChunkedEncodingIsSeen(h); }
  }

  function ModeOf(lib: Library, sending: Sending, data: bytes): PayloadHashMode {
    match sending
    case Plain => UnsignedPayload
    case Hashed => FixedSha256(lib.digest(Sha256, data))
    case Unsigned => StreamingUnsignedTrailer
    case SignedChunked(_) => StreamingSigned
    case SignedWithTrailer(_) => StreamingSignedTrailer
  }

  // ------------------------------------------------------------------- trailers

  /** The checksum trailer, if the checksum goes there. */
  function ChecksumTrailer(lib: Library, place: Place, data: bytes): Trailers {
    if place.InTrailer? then map[HeaderName(place.algorithm) := ChecksumText(lib, place.algorithm, data)] else map[]
  }

  function SeedOf(sending: Sending): Option<Verifier> {
    match sending
    case SignedChunked(v) => Some(v.(mode := SignedPayload))
    case SignedWithTrailer(v) => Some(v.(mode := SignedPayloadTrailer))
    case _ => None
  }

  /** The signature of the trailers after the signed chunks. */
  function TrailerSignature(crypto: Crypto, seed: Verifier, pieces: seq<bytes>, t: Trailers): bytes {
    var v := After(crypto, seed, Sign(crypto, seed, pieces + [[]]));
    crypto.hmacHex(v.key, TrailerStringToSign(crypto, v, t))
  }

  function ClientTrailers(lib: Library, crypto: Crypto, sending: Sending, place: Place, pieces: seq<bytes>): Trailers {
    var t := ChecksumTrailer(lib, place, Flatten(pieces));
    if sending.SignedWithTrailer?
    then t[TRAILER_SIGNATURE := TrailerSignature(crypto, SeedOf(sending).value, pieces, t)]
    else t
  }

  function TrailerLine(name: bytes, value: bytes): bytes { name + [COLON] + value }

  function ClientLines(lib: Library, crypto: Crypto, sending: Sending, place: Place, pieces: seq<bytes>): seq<bytes> {
    var t := ClientTrailers(lib, crypto, sending, place, pieces);
    (if place.InTrailer?
     then [TrailerLine(HeaderName(place.algorithm), ChecksumText(lib, place.algorithm, Flatten(pieces)))] else [])
    + (if sending.SignedWithTrailer? then [TrailerLine(TRAILER_SIGNATURE, t[TRAILER_SIGNATURE])] else [])
  }

  lemma TrailerLineIsClean(name: bytes, value: bytes)
    requires PlainName(name) && VisibleText(value)
    ensures CleanLine(TrailerLine(name, value)) && ShortLine(TrailerLine(name, value))
  {
    var line := TrailerLine(name, value);
    assert forall i :: 0 <= i < |line| ==> 32 < line[i] < 127;
    AsciiIsUtf8(line);
    hide Utf8Valid;
  }

  lemma PlainNameStays(name: bytes)
    requires PlainName(name)
    ensures COLON !in name && Lower(Trim(name)) == name
  {
    assert forall i :: 0 <= i < |name| ==> name[i] != COLON;
    hide Trim;
    VisibleEndsStay(name);
    assert Lower(name) == name;
  }

  /** Plain names and visible values are read back. */
  lemma TrailerLineIsRead(t: Trailers, name: bytes, value: bytes)
    requires PlainName(name) && VisibleText(value) && name !in t
    ensures AddTrailer(t, TrailerLine(name, value)) == Ok(t[name := value])
    ensures CleanLine(TrailerLine(name, value)) && ShortLine(TrailerLine(name, value))
  {
    TrailerLineIsClean(name, value);
    hide CleanLine, ShortLine, Trim, Lower, PlainName;
    PlainNameStays(name);
    SplitOnceAt(name, COLON, value);
    VisibleEndsStay(value);
  }

  /** Lower-case letters, digits and dashes. */
  predicate PlainName(name: bytes) {
    0 < |name| < 64 && forall i :: 0 <= i < |name| ==> name[i] == 45 || 48 <= name[i] <= 57 || 97 <= name[i] <= 122
  }

  lemma PlainLiteral(text: string)
    requires 0 < |text| < 64
    requires forall i :: 0 <= i < |text| ==> text[i] == '-' || '0' <= text[i] <= '9' || 'a' <= text[i] <= 'z'
    ensures PlainName(Ascii(text))
  {}

  lemma NamesArePlain(a: Algorithm)
    ensures PlainName(HeaderName(a))
  {
    hide PlainName;
    match a
    case Md5 => PlainLiteral("content-md5");
    case Crc32 => PlainLiteral("x-amz-checksum-crc32");
    case Crc32c => PlainLiteral("x-amz-checksum-crc32c");
    case Sha1 => PlainLiteral("x-amz-checksum-sha1");
    case Sha256 => PlainLiteral("x-amz-checksum-sha256");
    case Sha512 => PlainLiteral("x-amz-checksum-sha512");
  }

  /** The lines a client sends are read as the trailers it means. */
  lemma LinesAreRead(lib: Library, crypto: Crypto, sending: Sending, place: Place, pieces: seq<bytes>)
    requires UsualLibrary(lib) && HexSignatures(crypto)
    ensures var lines := ClientLines(lib, crypto, sending, place, pieces);
            && SendableLines(lines)
            && FoldTrailers(map[], lines) == Ok(ClientTrailers(lib, crypto, sending, place, pieces))
  {
    hide HeaderName, Ascii, PlainName, Flatten, AddTrailer, TrailerLine, CleanLine, ShortLine;
    hide TrailerStringToSign, Sign;
    var data := Flatten(pieces);
    var t := ChecksumTrailer(lib, place, data);
    var lines := ClientLines(lib, crypto, sending, place, pieces);
    var none: seq<bytes> := [];
    if place.InTrailer? {
      var a := place.algorithm;
      NamesArePlain(a);
      TrailerLineIsRead(map[], HeaderName(a), ChecksumText(lib, a, data));
      NamesDiffer(a, a);
      assert map[][HeaderName(a) := ChecksumText(lib, a, data)] == t;
    }
    if sending.SignedWithTrailer? {
      PlainLiteral("x-amz-trailer-signature");
      TrailerLineIsRead(t, TRAILER_SIGNATURE, ClientTrailers(lib, crypto, sending, place, pieces)[TRAILER_SIGNATURE]);
    }
    if |lines| > 0 { assert lines == [lines[0]] + lines[1..]; FoldCons(map[], lines[0], lines[1..]); }
    if |lines| > 1 { assert lines[1..] == [lines[1]] + none; FoldCons(t, lines[1], none); }
    if |lines| == 1 { assert lines[1..] == none; }
  }

  // ------------------------------------------------------------------- checksums

  lemma NameIsDeclared(a: Algorithm)
    ensures DeclaredPieces(HeaderName(a)) == [HeaderName(a)] && DeclaredName(HeaderName(a)) == HeaderName(a)
    ensures VisibleAscii(HeaderName(a))
  {
    var name := HeaderName(a);
    hide HeaderName;
    NamesArePlain(a);
    VisibleEndsStay(name);
    assert Lower(name) == name;
  }

  lemma OtherNames(a: Algorithm, name: bytes)
    requires name in UNSUPPORTED || name == SDK_ALGORITHM_HEADER || name == HeaderName(a)
    ensures OtherName(name) && name != TRAILER_HEADER
    ensures name != HeaderName(a) ==> forall b :: name != HeaderName(b)
    ensures name in UNSUPPORTED ==> name != TRAILER_SIGNATURE
  {
    if name in UNSUPPORTED {
      assert |name| in {22, 23, 24} && name[6] == 'c' as int;
      assert |TRAILER_HEADER| == 13 && |ENCODING| == 16 && |PAYLOAD_HASH| == 20;
      assert |LENGTH| == 14 && |DECODED_LENGTH| == 28;
      assert |TRAILER_SIGNATURE| == 23 && TRAILER_SIGNATURE[6] == 't' as int;
      forall b ensures name != HeaderName(b) { assert |HeaderName(b)| <= 21; }
    } else {
      hide HeaderName, Ascii;
      NamesDiffer(a, a);
      forall b ensures SDK_ALGORITHM_HEADER != HeaderName(b) { NamesDiffer(b, b); }
      if name == HeaderName(a) { NamesDiffer(a, a); }
    }
  }

  lemma StatedInHeader(lib: Library, sending: Sending, place: Place, data: bytes, b: Algorithm)
    ensures Values(RequestHeaders(lib, sending, place, data), HeaderName(b)) ==
              if place == InHeader(b) then [ChecksumText(lib, b, data)] else []
  {
    hide HeaderName, Ascii, RequestHeaders, Values, ChecksumText;
    if place == InHeader(b) {
      RequestValues(lib, sending, place, data);
    } else {
      OtherNames(b, HeaderName(b));
      if place.InHeader? { NamesDiffer(b, place.algorithm); }
      OtherValues(lib, sending, place, data, HeaderName(b));
    }
  }

  lemma StatedInTrailer(lib: Library, crypto: Crypto, sending: Sending, place: Place, pieces: seq<bytes>, b: Algorithm)
    ensures var t := ClientTrailers(lib, crypto, sending, place, pieces);
            && (HeaderName(b) in t <==> place == InTrailer(b))
            && (place == InTrailer(b) ==> t[HeaderName(b)] == ChecksumText(lib, b, Flatten(pieces)))
  {
    hide HeaderName, Ascii, Flatten, TrailerSignature, ChecksumText;
    NamesDiffer(b, if place.Nowhere? then b else place.algorithm);
  }

  /** Where the checksum of each algorithm is found: only the one stated, where it was put. */
  lemma SuppliedIsStated(lib: Library, crypto: Crypto, sending: Sending, place: Place, pieces: seq<bytes>, b: Algorithm)
    ensures var data := Flatten(pieces);
            var h, t := RequestHeaders(lib, sending, place, data), ClientTrailers(lib, crypto, sending, place, pieces);
            && Values(h, HeaderName(b)) == (if place == InHeader(b) then [ChecksumText(lib, b, data)] else [])
            && (HeaderName(b) in t <==> place == InTrailer(b))
            && Supplied(h, t, b) ==
                 if place == InHeader(b) || place == InTrailer(b) then Some(ChecksumText(lib, b, data)) else None
  {
    hide HeaderName, Flatten, RequestHeaders, ClientTrailers, Values, ChecksumText;
    StatedInHeader(lib, sending, place, Flatten(pieces), b);
    StatedInTrailer(lib, crypto, sending, place, pieces, b);
  }

  predicate Statable(sending: Sending, place: Place) {
    place.InTrailer? ==> place.algorithm != Md5 && Chunked(sending)
  }

  lemma StatedIsReadable(lib: Library, a: Algorithm, data: bytes)
    requires UsualLibrary(lib)
    ensures var text := ChecksumText(lib, a, data);
            && VisibleAscii(text) && lib.base64(text) == Some(lib.digest(a, data))
            && |lib.digest(a, data)| == DigestLength(a)
  {}

  lemma TrailersAreDeclared(lib: Library, crypto: Crypto, sending: Sending, place: Place, pieces: seq<bytes>)
    requires Statable(sending, place)
    ensures TrailersDeclared(
              RequestHeaders(lib, sending, place, Flatten(pieces)), ClientTrailers(lib, crypto, sending, place, pieces))
  {
    var data := Flatten(pieces);
    var h, t := RequestHeaders(lib, sending, place, data), ClientTrailers(lib, crypto, sending, place, pieces);
    hide HeaderName, Ascii, Flatten, RequestHeaders, ClientTrailers, DeclaredPieces, DeclaredName, VisibleAscii, Values;
    RequestValues(lib, sending, place, data);
    forall b ensures HeaderName(b) in t <==> place == InTrailer(b) {
      SuppliedIsStated(lib, crypto, sending, place, pieces, b);
    }
    if place.InTrailer? {
      NameIsDeclared(place.algorithm);
      EveryAlgorithmIsListed(place.algorithm);
      assert IsChecksumName(HeaderName(place.algorithm));
    } else if place.InHeader? {
      NamesDiffer(place.algorithm, place.algorithm);
      OtherTrailerHeader(lib, sending, place, data);
    }
  }

  lemma OtherTrailerHeader(lib: Library, sending: Sending, place: Place, data: bytes)
    requires place.InHeader?
    ensures Values(RequestHeaders(lib, sending, place, data), TRAILER_HEADER) == []
  {
    hide HeaderName, Ascii, RequestHeaders;
    NamesInUse(place);
    OtherValues(lib, sending, place, data, TRAILER_HEADER);
  }

  lemma NothingUnsupported(lib: Library, crypto: Crypto, sending: Sending, place: Place, pieces: seq<bytes>)
    ensures var h := RequestHeaders(lib, sending, place, Flatten(pieces));
            var t := ClientTrailers(lib, crypto, sending, place, pieces);
            NoUnsupported(h, t) && Values(h, SDK_ALGORITHM_HEADER) == []
  {
    var data := Flatten(pieces);
    hide HeaderName, Ascii, Flatten, RequestHeaders, Values, TrailerSignature;
    var a := if place.Nowhere? then Md5 else place.algorithm;
    forall name | name in UNSUPPORTED || name == SDK_ALGORITHM_HEADER
      ensures Values(RequestHeaders(lib, sending, place, data), name) == []
      ensures name in UNSUPPORTED ==> name !in ClientTrailers(lib, crypto, sending, place, pieces)
    {
      OtherNames(a, name);
      NamesDiffer(a, a);
      if name in UNSUPPORTED { UnsupportedIsNoHeader(name, a); }
      OtherValues(lib, sending, place, data, name);
    }
  }

  lemma UnsupportedIsNoHeader(name: bytes, a: Algorithm)
    requires name in UNSUPPORTED
    ensures name != HeaderName(a)
  {
    assert |name| >= 22 && |HeaderName(a)| <= 21;
  }

  /** A request whose one checksum is true is acceptable and genuine. */
  lemma TrueRequest(lib: Library, crypto: Crypto, sending: Sending, place: Place, pieces: seq<bytes>)
    requires UsualLibrary(lib) && Statable(sending, place) && |Flatten(pieces)| <= U64_MAX
    ensures var data := Flatten(pieces);
            var h, t := RequestHeaders(lib, sending, place, data), ClientTrailers(lib, crypto, sending, place, pieces);
            RequestAcceptable(lib, h, t) && Genuine(lib, h, t, data)
  {
    var data := Flatten(pieces);
    var h, t := RequestHeaders(lib, sending, place, data), ClientTrailers(lib, crypto, sending, place, pieces);
    hide HeaderName, Flatten, RequestHeaders, ClientTrailers, Values, NoUnsupported, TrailersDeclared, UsualLibrary;
    hide ChecksumText, DigestLength, VisibleAscii, Supplied, PayloadMode, IsAwsChunked;
    hide DecodedContentLength, ContentLength;
    NothingUnsupported(lib, crypto, sending, place, pieces);
    TrailersAreDeclared(lib, crypto, sending, place, pieces);
    RequestIsRead(lib, sending, place, data);
    forall b
      ensures Values(h, HeaderName(b)) == (if place == InHeader(b) then [ChecksumText(lib, b, data)] else [])
      ensures HeaderName(b) in t <==> place == InTrailer(b)
      ensures Supplied(h, t, b) ==
                if place == InHeader(b) || place == InTrailer(b) then Some(ChecksumText(lib, b, data)) else None
      ensures VisibleAscii(ChecksumText(lib, b, data))
      ensures lib.base64(ChecksumText(lib, b, data)) == Some(lib.digest(b, data))
      ensures |lib.digest(b, data)| == DigestLength(b)
    {
      SuppliedIsStated(lib, crypto, sending, place, pieces, b);
      StatedIsReadable(lib, b, data);
    }
  }

  // ---------------------------------------------------------------------- bodies

  function Bare(pieces: seq<bytes>): (r: seq<Chunk>)
    ensures |r| == |pieces| && forall i :: 0 <= i < |r| ==> r[i] == Chunk(pieces[i], None)
  {
    seq(|pieces|, i requires 0 <= i < |pieces| => Chunk(pieces[i], None))
  }

  /** What goes over the wire. */
  function ClientBody(lib: Library, crypto: Crypto, sending: Sending, place: Place, pieces: seq<bytes>): bytes {
    var lines := ClientLines(lib, crypto, sending, place, pieces);
    if !Chunked(sending) then Flatten(pieces)
    else match SeedOf(sending)
      case None => EncodeBody(Bare(pieces), None, lines)
      case Some(seed) => SignedBody(crypto, seed, pieces, lines)
  }

  predicate SendablePieces(pieces: seq<bytes>) {
    forall i :: 0 <= i < |pieces| ==> 0 < |pieces[i]| <= USIZE_MAX - 2
  }

  /** The trailer signature a client adds is the one that is asked for. */
  lemma SignedTrailersVerify(lib: Library, env: Env, sending: Sending, place: Place, pieces: seq<bytes>)
    requires SeedOf(sending).Some?
    ensures var seed := SeedOf(sending).value;
            TrailersVerify(
              env, seed, Sign(env.crypto, seed, pieces + [[]]), ClientTrailers(lib, env.crypto, sending, place, pieces))
  {
    hide Sign, Flatten, HeaderName, Ascii;
    if sending.SignedWithTrailer? {
      var t := ChecksumTrailer(lib, place, Flatten(pieces));
      var u := ClientTrailers(lib, env.crypto, sending, place, pieces);
      assert SignedNames(u) == SignedNames(t);
      LinesOfSame(t, u, SignedNames(t));
    }
  }

  /** However it is framed, the chunked body of a client arrives. */
  lemma ChunkedBodyArrives(
      lib: Library, env: Env, sending: Sending, place: Place, pieces: seq<bytes>, frames: seq<bytes>)
    requires UsualLibrary(lib) && HexSignatures(env.crypto) && Chunked(sending) && SendablePieces(pieces)
    requires WithinLimit(env, |Flatten(pieces)|)
    requires Flatten(frames) == ClientBody(lib, env.crypto, sending, place, pieces)
    ensures Accepts(
              env, Fresh(SeedOf(sending)), frames, Flatten(pieces),
              ClientTrailers(lib, env.crypto, sending, place, pieces))
  {
    var lines := ClientLines(lib, env.crypto, sending, place, pieces);
    LinesAreRead(lib, env.crypto, sending, place, pieces);
    hide UsualLibrary, HexSignatures, ClientTrailers, ClientLines, SendableLines, FoldTrailers, EncodeBody, SignedBody;
    hide WithinLimit, Accepts, Flatten, TrailersVerify, Sign;
    match SeedOf(sending)
    case None =>
      PayloadIsFlattened(Bare(pieces), pieces);
      EncodedBodySurvivesEveryFraming(env, Bare(pieces), None, lines, frames);
    case Some(seed) =>
      SignedTrailersVerify(lib, env, sending, place, pieces);
      SignedBodySurvivesEveryFraming(env, seed, pieces, lines, frames);
  }

  /** The signing context that goes with the way of sending. */
  function SigningOf(sending: Sending): Option<Verifier> {
    match sending case SignedChunked(v) => Some(v) case SignedWithTrailer(v) => Some(v) case _ => None
  }

  lemma ClientBodyArrives(
      lib: Library, env: Env, sending: Sending, place: Place, pieces: seq<bytes>, frames: seq<bytes>)
    requires UsualLibrary(lib) && HexSignatures(env.crypto) && Statable(sending, place)
    requires Chunked(sending) ==> SendablePieces(pieces)
    requires WithinLimit(env, |Flatten(pieces)|) && |Flatten(pieces)| <= U64_MAX
    requires Flatten(frames) == ClientBody(lib, env.crypto, sending, place, pieces)
    ensures var data := Flatten(pieces);
            BodyArrived(
              env, RequestHeaders(lib, sending, place, data), Body(frames, false), SigningOf(sending), data,
              ClientTrailers(lib, env.crypto, sending, place, pieces))
  {
    hide RequestHeaders, PayloadMode, IsAwsChunked, DecodedContentLength, ContentLength, Run, Payload, Flatten;
    hide UsualLibrary, HexSignatures, ClientTrailers, ClientBody, Statable, SendablePieces;
    var data := Flatten(pieces);
    var h := RequestHeaders(lib, sending, place, data);
    RequestIsRead(lib, sending, place, data);
    if Chunked(sending) {
      ChunkedBodyArrives(lib, env, sending, place, pieces, frames);
      assert SignatureVerifier(h, SigningOf(sending)) == Some(SeedOf(sending));
    } else {
      NoTrailers(lib, env.crypto, sending, place, pieces);
    }
  }

  lemma NoTrailers(lib: Library, crypto: Crypto, sending: Sending, place: Place, pieces: seq<bytes>)
    requires !Chunked(sending) && Statable(sending, place)
    ensures ClientTrailers(lib, crypto, sending, place, pieces) == map[]
    ensures ClientBody(lib, crypto, sending, place, pieces) == Flatten(pieces)
  {
    hide Flatten;
  }

  /**
    A client uploads: plain or chunked, signed or not, its checksum in a header, in a
    trailer or nowhere, its body framed at will. Unless a write fails the upload is
    accepted and exactly its data is written.
  */
  method Send(
      lib: Library, env: Env, sending: Sending, place: Place, pieces: seq<bytes>, frames: seq<bytes>, w: Writer)
    returns (r: Result<UploadedBody, UploadError>)
    requires UsualLibrary(lib) && HexSignatures(env.crypto) && Statable(sending, place)
    requires Chunked(sending) ==> SendablePieces(pieces)
    requires WithinLimit(env, |Flatten(pieces)|) && |Flatten(pieces)| <= U64_MAX
    requires Flatten(frames) == ClientBody(lib, env.crypto, sending, place, pieces)
    requires w.Intact() && w.written == []
    modifies w
    ensures w.Intact() ==> r.Ok? && w.written == Flatten(pieces)
    ensures r.Ok? ==> r.value.size == |Flatten(pieces)| && r.value.md5 == lib.digest(Md5, Flatten(pieces))
  {
    var data := Flatten(pieces);
    var h := RequestHeaders(lib, sending, place, data);
    ghost var t := ClientTrailers(lib, env.crypto, sending, place, pieces);
    ClientBodyArrives(lib, env, sending, place, pieces, frames);
    TrueRequest(lib, env.crypto, sending, place, pieces);
    hide UsualLibrary, HexSignatures, RequestHeaders, ClientTrailers, Flatten, RequestAcceptable, Genuine;
    hide SignedAsAnnounced;
    ghost var got;
    r, got := WriteUploadBody(lib, env, h, Body(frames, false), w, SigningOf(sending));
    if r.Ok? { SameArrival(env, h, Body(frames, false), SigningOf(sending), data, t, w.written, got); }
  }

  lemma SameArrival(
      env: Env, h: Headers, body: Body, signing: Option<Verifier>, d1: bytes, t1: Trailers, d2: bytes, t2: Trailers)
    requires BodyArrived(env, h, body, signing, d1, t1) && BodyArrived(env, h, body, signing, d2, t2)
    ensures d1 == d2
  {}
}
