/**
  Checksums a client supplies with an upload (src/body/checksum.rs): which are
  accepted, which bytes they must describe, and what is compared with what.
*/
module Checksums {
  import opened Bytes
  import opened AwsChunked

  /** Request headers by lower-case name, in order of appearance. */
  type Headers = map<bytes, seq<bytes>>

  datatype Algorithm = Md5 | Crc32 | Crc32c | Sha1 | Sha256 | Sha512

  /** Foreign code: the digest of a byte string, base64 decoding and encoding. */
  datatype Library = Library(
    digest: (Algorithm, bytes) -> bytes, base64: bytes -> Option<bytes>, encode64: bytes -> bytes)

  /** Every digest of `data`. */
  function DigestsOf(lib: Library, data: bytes): map<Algorithm, bytes> {
    map a: Algorithm | true :: lib.digest(a, data)
  }

  /** Decoding undoes encoding. */
  ghost predicate LawfulBase64(lib: Library) {
    forall x :: lib.base64(lib.encode64(x)) == Some(x)
  }

  const CHECKSUM_NAMES: seq<Algorithm> := [Crc32, Crc32c, Sha1, Sha256, Sha512]

  const TRAILER_HEADER: bytes := Ascii("x-amz-trailer")
  const SDK_ALGORITHM_HEADER: bytes := Ascii("x-amz-sdk-checksum-algorithm")

  function HeaderName(a: Algorithm): bytes {
    match a
    case Md5 => Ascii("content-md5")
    case Crc32 => Ascii("x-amz-checksum-crc32")
    case Crc32c => Ascii("x-amz-checksum-crc32c")
    case Sha1 => Ascii("x-amz-checksum-sha1")
    case Sha256 => Ascii("x-amz-checksum-sha256")
    case Sha512 => Ascii("x-amz-checksum-sha512")
  }

  function DigestLength(a: Algorithm): nat {
    match a
    case Md5 => 16
    case Crc32 => 4
    case Crc32c => 4
    case Sha1 => 20
    case Sha256 => 32
    case Sha512 => 64
  }

  /** What finalizing a digest that was never enabled yields: `unwrap_or_default`. */
  function DefaultDigest(a: Algorithm): bytes {
    if a == Crc32 || a == Crc32c then [0, 0, 0, 0] else []
  }

  function SdkName(a: Algorithm): bytes {
    match a
    case Md5 => []
    case Crc32 => Ascii("crc32")
    case Crc32c => Ascii("crc32c")
    case Sha1 => Ascii("sha1")
    case Sha256 => Ascii("sha256")
    case Sha512 => Ascii("sha512")
  }

  const UNSUPPORTED: seq<bytes> := [
    Ascii("x-amz-checksum-crc64nvme"), Ascii("x-amz-checksum-xxhash64"),
    Ascii("x-amz-checksum-xxhash3"), Ascii("x-amz-checksum-xxhash128")]

  function Values(h: Headers, name: bytes): seq<bytes> {
    if name in h then h[name] else []
  }

  /** `HeaderValue::to_str` succeeds. */
  predicate VisibleAscii(v: bytes) {
    forall i :: 0 <= i < |v| ==> 32 <= v[i] < 127 || v[i] == 9
  }

  lemma HeaderNamesDiffer(a: Algorithm, b: Algorithm)
    requires HeaderName(a) == HeaderName(b)
    ensures a == b
  {
    assert HeaderName(Md5)[0] == 'c' as int;
    assert HeaderName(Sha1)[15] == 's' as int && HeaderName(Sha256)[15] == 's' as int &&
        HeaderName(Sha512)[15] == 's' as int;
    assert HeaderName(Crc32)[15] == 'c' as int && HeaderName(Crc32c)[15] == 'c' as int;
    assert HeaderName(Sha256)[18] == '2' as int && HeaderName(Sha512)[18] == '5' as int;
    assert |HeaderName(Sha1)| == 19 && |HeaderName(Crc32)| == 20;
    assert |HeaderName(a)| == |HeaderName(b)|;
  }

  // ------------------------------------------------------- declared trailer names

  function DeclaredPieces(value: bytes): seq<bytes> { Split(value, 44) }

  function DeclaredName(piece: bytes): bytes { Lower(Trim(piece)) }

  /** `checksum_trailer_declares`: decides which digests are enabled before the body is read. */
  predicate Declares(h: Headers, name: bytes) {
    && Values(h, TRAILER_HEADER) != []
    && VisibleAscii(Values(h, TRAILER_HEADER)[0])
    && exists piece :: piece in DeclaredPieces(Values(h, TRAILER_HEADER)[0]) && DeclaredName(piece) == name
  }

  predicate IsChecksumName(name: bytes) {
    exists a :: a in CHECKSUM_NAMES && HeaderName(a) == name
  }

  /** The names a request declares are distinct supported checksums, all of which arrived. */
  ghost predicate DeclarationHonoured(pieces: seq<bytes>, t: Trailers) {
    && (forall i :: 0 <= i < |pieces| ==>
          IsChecksumName(DeclaredName(pieces[i])) && DeclaredName(pieces[i]) in t)
    && (forall i, j :: 0 <= i < j < |pieces| ==> DeclaredName(pieces[i]) != DeclaredName(pieces[j]))
  }

  ghost predicate TrailersDeclared(h: Headers, t: Trailers) {
    && (Values(h, TRAILER_HEADER) != [] ==>
          && |Values(h, TRAILER_HEADER)| == 1
          && VisibleAscii(Values(h, TRAILER_HEADER)[0])
          && DeclarationHonoured(DeclaredPieces(Values(h, TRAILER_HEADER)[0]), t))
    && (forall a :: a in CHECKSUM_NAMES && HeaderName(a) in t ==> Declares(h, HeaderName(a)))
  }

  lemma UnsupportedIsNoChecksum(name: bytes)
    requires name in UNSUPPORTED
    ensures !IsChecksumName(name)
  {
    forall a | a in CHECKSUM_NAMES ensures HeaderName(a) != name {
      var u :| 0 <= u < |UNSUPPORTED| && UNSUPPORTED[u] == name;
      assert |name| == 24 || |name| == 23 || |name| == 22;
      assert |HeaderName(a)| <= 21;
    }
  }

  lemma EmptyIsNoChecksum()
    ensures !IsChecksumName([])
  {
    forall a | a in CHECKSUM_NAMES ensures HeaderName(a) != [] { assert |HeaderName(a)| > 0; }
  }

  /** The loop over declared names accepts exactly the honoured declarations. */
  method CollectDeclared(pieces: seq<bytes>, t: Trailers) returns (ok: bool, declared: set<bytes>)
    ensures ok <==> DeclarationHonoured(pieces, t)
    ensures ok ==> forall name :: name in declared <==> exists piece :: piece in pieces && DeclaredName(piece) == name
  {
    hide IsChecksumName, DeclaredName;
    EmptyIsNoChecksum();
    declared := {};
    for i := 0 to |pieces|
      invariant forall k :: 0 <= k < i ==> DeclaredName(pieces[k]) in declared
      invariant forall name :: name in declared ==> exists k :: 0 <= k < i && DeclaredName(pieces[k]) == name
      invariant forall k :: 0 <= k < i ==> IsChecksumName(DeclaredName(pieces[k])) && DeclaredName(pieces[k]) in t
      invariant forall j, k :: 0 <= j < k < i ==> DeclaredName(pieces[j]) != DeclaredName(pieces[k])
    {
      var name := DeclaredName(pieces[i]);
      if name == [] { return false, {}; }
      if name in declared { return false, {}; }
      if name in UNSUPPORTED { UnsupportedIsNoChecksum(name); return false, {}; }
      if !IsChecksumName(name) { return false, {}; }
      if name !in t { return false, {}; }
      declared := declared + {name};
    }
    ok := true;
  }

  method RejectUndeclared(declared: set<bytes>, t: Trailers) returns (ok: bool)
    ensures ok <==> forall a :: a in CHECKSUM_NAMES && HeaderName(a) in t ==> HeaderName(a) in declared
  {
    hide HeaderName;
    for c := 0 to |CHECKSUM_NAMES|
      invariant forall k :: 0 <= k < c && HeaderName(CHECKSUM_NAMES[k]) in t ==>
                  HeaderName(CHECKSUM_NAMES[k]) in declared
    {
      var name := HeaderName(CHECKSUM_NAMES[c]);
      if name in t && name !in declared {
        assert CHECKSUM_NAMES[c] in CHECKSUM_NAMES;
        return false;
      }
    }
    ok := true;
  }

  method ValidateDeclaredTrailers(h: Headers, t: Trailers) returns (ok: bool)
    ensures ok <==> TrailersDeclared(h, t)
  {
    hide HeaderName, DeclaredPieces, DeclaredName, DeclarationHonoured;
    var values := Values(h, TRAILER_HEADER);
    if values == [] {
      ok := RejectUndeclared({}, t);
      return;
    }
    if |values| > 1 { return false; }
    if !VisibleAscii(values[0]) { return false; }
    var honoured, declared := CollectDeclared(DeclaredPieces(values[0]), t);
    if !honoured { return false; }
    ok := RejectUndeclared(declared, t);
  }

  // ------------------------------------------------------------ checksum requests

  /** The value supplied for a checksum: a header wins over a trailer. */
  function Supplied(h: Headers, t: Trailers, a: Algorithm): Option<bytes> {
    if Values(h, HeaderName(a)) != [] then Some(Values(h, HeaderName(a))[0])
    else if HeaderName(a) in t then Some(t[HeaderName(a)])
    else None
  }

  /** A supplied value can be read: ASCII if it is a header, base64 of the right length. */
  predicate Readable(lib: Library, h: Headers, t: Trailers, a: Algorithm) {
    Supplied(h, t, a).Some? ==>
      && (Values(h, HeaderName(a)) != [] ==> VisibleAscii(Supplied(h, t, a).value))
      && lib.base64(Supplied(h, t, a).value).Some?
      && |lib.base64(Supplied(h, t, a).value).value| == DigestLength(a)
  }

  /** Decoded expectations by algorithm, and the values to echo. */
  datatype ChecksumRequest = ChecksumRequest(expected: map<Algorithm, bytes>, echo: map<bytes, bytes>)

  const ALL: seq<Algorithm> := [Md5] + CHECKSUM_NAMES

  predicate SdkAlgorithmServed(h: Headers, t: Trailers) {
    var values := Values(h, SDK_ALGORITHM_HEADER);
    values != [] ==>
      && |values| == 1 && VisibleAscii(values[0])
      && exists a :: a in CHECKSUM_NAMES && SdkName(a) == Lower(values[0]) && Supplied(h, t, a).Some?
  }

  predicate NoUnsupported(h: Headers, t: Trailers) {
    forall name :: name in UNSUPPORTED ==> Values(h, name) == [] && name !in t
  }

  predicate NoDuplicates(h: Headers, t: Trailers) {
    && (forall a :: a in ALL ==> |Values(h, HeaderName(a))| <= 1)
    && (forall a :: a in CHECKSUM_NAMES ==> !(Values(h, HeaderName(a)) != [] && HeaderName(a) in t))
  }

  ghost predicate RequestAcceptable(lib: Library, h: Headers, t: Trailers) {
    && NoUnsupported(h, t)
    && NoDuplicates(h, t)
    && TrailersDeclared(h, t)
    && (forall a :: a in ALL ==> Readable(lib, h, t, a))
    && SdkAlgorithmServed(h, t)
  }

  lemma EveryAlgorithmIsListed(a: Algorithm)
    ensures a in ALL
    ensures a != Md5 ==> a in CHECKSUM_NAMES
  {
    assert ALL[0] == Md5 && ALL[1] == Crc32 && ALL[2] == Crc32c && ALL[3] == Sha1 && ALL[4] == Sha256 &&
        ALL[5] == Sha512;
    assert CHECKSUM_NAMES[0] == Crc32 && CHECKSUM_NAMES[1] == Crc32c && CHECKSUM_NAMES[2] == Sha1
           && CHECKSUM_NAMES[3] == Sha256 && CHECKSUM_NAMES[4] == Sha512;
  }

  /** Decodes every supplied value, in the order the source reads them. */
  method ReadExpected(lib: Library, h: Headers, t: Trailers) returns (r: Option<map<Algorithm, bytes>>)
    ensures r.Some? <==> forall a :: a in ALL ==> Readable(lib, h, t, a)
    ensures r.Some? ==> forall a :: a in r.value <==> Supplied(h, t, a).Some?
    ensures r.Some? ==> forall a :: a in r.value ==>
              lib.base64(Supplied(h, t, a).value) == Some(r.value[a]) && |r.value[a]| == DigestLength(a)
  {
    hide Supplied, HeaderName;
    var expected: map<Algorithm, bytes> := map[];
    for i := 0 to |ALL|
      invariant forall k :: 0 <= k < i ==> Readable(lib, h, t, ALL[k])
      invariant forall k :: 0 <= k < i && Supplied(h, t, ALL[k]).Some? ==> ALL[k] in expected
      invariant forall a :: a in expected ==> Supplied(h, t, a).Some?
      invariant forall a :: a in expected ==>
                  lib.base64(Supplied(h, t, a).value) == Some(expected[a]) && |expected[a]| == DigestLength(a)
    {
      var a := ALL[i];
      if !Readable(lib, h, t, a) { assert ALL[i] in ALL; return None; }
      if Supplied(h, t, a).Some? {
        expected := expected[a := lib.base64(Supplied(h, t, a).value).value];
      }
    }
    forall a | Supplied(h, t, a).Some? ensures a in expected { EveryAlgorithmIsListed(a); }
    r := Some(expected);
  }

  /** Parsing succeeds exactly on acceptable requests and expects every supplied value. */
  method ParseChecksumRequest(lib: Library, h: Headers, t: Trailers) returns (r: Option<ChecksumRequest>)
    ensures r.Some? <==> RequestAcceptable(lib, h, t)
    ensures r.Some? ==> forall a :: a in r.value.expected <==> Supplied(h, t, a).Some?
    ensures r.Some? ==> forall a :: a in r.value.expected ==>
              lib.base64(Supplied(h, t, a).value) == Some(r.value.expected[a]) &&
                  |r.value.expected[a]| == DigestLength(a)
    ensures r.Some? ==> r.value.echo == EchoValues(h, t)
  {
    hide Supplied, HeaderName, Readable, TrailersDeclared, NoDuplicates, NoUnsupported, SdkAlgorithmServed, EchoValues;
    if !NoUnsupported(h, t) || !NoDuplicates(h, t) { return None; }
    var declared := ValidateDeclaredTrailers(h, t);
    if !declared { return None; }
    var expected := ReadExpected(lib, h, t);
    if expected.None? || !SdkAlgorithmServed(h, t) { return None; }
    r := Some(ChecksumRequest(expected.value, EchoValues(h, t)));
  }

  /** `checksum_values`: the supplied values under their header names. */
  function EchoValues(h: Headers, t: Trailers): map<bytes, bytes> {
    map a | a in CHECKSUM_NAMES && Supplied(h, t, a).Some? :: HeaderName(a) := Supplied(h, t, a).value
  }

  /** `ChecksumRequest::validate` against finalized digests. */
  predicate Validates(request: ChecksumRequest, digests: map<Algorithm, bytes>) {
    forall a :: a in request.expected ==> a in digests && request.expected[a] == digests[a]
  }
}
