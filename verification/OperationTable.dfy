/**
  Which request is which operation, told from the verb, the route and the decoded query
  parameters alone: one if-and-only-if for each operation and for each refusal.
*/
module OperationTable {
  import opened Bytes
  import opened Query
  import opened Operations

  /** What the query says about multipart uploads: values by name, and how often `uploads` stands without one. */
  datatype Facts = Facts(ids: seq<bytes>, numbers: seq<bytes>, listTypes: seq<bytes>, uploads: nat)

  function FactsOf(q: bytes, mode: QueryMode): Facts
    requires Parameters(q, mode).Some?
  {
    var ps := Parameters(q, mode).value;
    Facts(
      ValuesOf(ps, Ascii("uploadId")), ValuesOf(ps, Ascii("partNumber")), ValuesOf(ps, Ascii("list-type")),
      multiset(ps)[(Ascii("uploads"), [])])
  }

  /** The text is a number from 1 to 10000. */
  predicate NumberText(v: bytes, n: nat) { ParseUnsigned(v, 10, 65535) == Some(n) && 1 <= n <= 10000 }

  predicate NoNumber(v: bytes) { forall n :: 1 <= n <= 10000 ==> ParseUnsigned(v, 10, 65535) != Some(n) }

  /** One upload id, and it is a UUID. */
  predicate OneId(f: Facts, id: bytes) { f.ids == [id] && CanonicalUuid(id) }

  predicate OneBadId(f: Facts) { |f.ids| == 1 && !CanonicalUuid(f.ids[0]) }

  /** What the operation is, verb by verb. */
  ghost predicate Is(verb: Method, route: bool, f: Facts, op: Operation) {
    match op
    case HeadObject => verb == HEAD && route
    case HeadBucket => verb == HEAD && !route
    case CreateMultipartUpload => verb == POST && f.uploads == 1 && f.ids == []
    case CompleteMultipartUpload(id) => verb == POST && f.uploads == 0 && OneId(f, id)
    case UploadPart(id, n) => verb == PUT && OneId(f, id) && |f.numbers| == 1 && NumberText(f.numbers[0], n)
    case PutObjectOp => verb == PUT && f.ids == [] && f.numbers == []
    case AbortMultipartUpload(id) => verb == DELETE && |f.numbers| <= 1 && OneId(f, id)
    case DeleteObjectOp => verb == DELETE && |f.numbers| <= 1 && f.ids == [] && route
    case ListParts(id) => verb == GET && |f.numbers| <= 1 && OneId(f, id)
    case ListObjectsV2 => verb == GET && |f.numbers| <= 1 && f.ids == [] && f.listTypes == [Ascii("2")]
    case UnsupportedOp =>
      verb == GET && |f.numbers| <= 1 && f.ids == [] && |f.listTypes| == 1 && f.listTypes != [Ascii("2")]
    case GetObjectOp => verb == GET && |f.numbers| <= 1 && f.ids == [] && f.listTypes == [] && route
    case MethodNotAllowed =>
      && |f.numbers| <= 1
      && (|| (verb == DELETE && f.ids == [] && !route)
          || (verb == GET && f.ids == [] && f.listTypes == [] && !route)
          || (verb == POST && f.ids == [] && f.uploads == 0)
          || (verb == OtherMethod && |f.ids| <= 1))
  }

  /** Verbs that look at the part number and then the upload id before anything else. */
  predicate LooksFirst(verb: Method) { verb == PUT || verb == DELETE || verb == GET || verb == OtherMethod }

  /** Why a request is refused. */
  ghost predicate Refused(verb: Method, f: Facts, e: DetectError) {
    match e
    case BadQueryEncoding => false
    case Repeated(name) =>
      || (name == Ascii("uploads") && verb == POST && f.uploads > 1)
      || (name == Ascii("uploadId") && |f.ids| > 1
          && ((verb == POST && f.uploads <= 1) || (LooksFirst(verb) && |f.numbers| <= 1)))
      || (name == Ascii("partNumber") && |f.numbers| > 1
          && ((verb == POST && f.uploads == 0 && f.ids == []) || LooksFirst(verb)))
      || (name == Ascii("list-type") && verb == GET && |f.numbers| <= 1 && f.ids == [] && |f.listTypes| > 1)
    case Ambiguous => verb == POST && f.uploads == 1 && |f.ids| == 1
    case PartNumberRequired => verb == PUT && f.numbers == [] && |f.ids| == 1
    case UploadIdRequired => verb == PUT && |f.numbers| == 1 && f.ids == []
    case InvalidUploadId =>
      && OneBadId(f)
      && (|| (verb == POST && f.uploads == 0)
          || (verb == PUT && |f.numbers| == 1)
          || ((verb == DELETE || verb == GET) && |f.numbers| <= 1))
    case InvalidPartNumber =>
      verb == PUT && |f.ids| == 1 && CanonicalUuid(f.ids[0]) && |f.numbers| == 1 && NoNumber(f.numbers[0])
  }

  // -------------------------------------------------------------- from the query

  /** Lookups answer from the facts. */
  predicate AnswersFrom(q: bytes, f: Facts) {
    && UniqueParam(q, Ascii("uploadId")) == OneOf(f.ids, Ascii("uploadId"))
    && UniqueParam(q, Ascii("partNumber")) == OneOf(f.numbers, Ascii("partNumber"))
    && UniqueParam(q, Ascii("list-type")) == OneOf(f.listTypes, Ascii("list-type"))
    && UniqueFlag(q, Ascii("uploads")) == if f.uploads > 1 then Err(Repeated(Ascii("uploads"))) else Ok(f.uploads == 1)
  }

  function OneOf(vs: seq<bytes>, name: bytes): Lookup {
    if |vs| > 1 then Err(Repeated(name)) else Ok(if vs == [] then None else Some(vs[0]))
  }

  lemma LookedUpNames(mode: QueryMode)
    ensures forall name :: name in {Ascii("uploadId"), Ascii("partNumber"), Ascii("list-type"), Ascii("uploads")} ==>
              name != [] && !LeftOut(mode, name)
  {
    assert |SIGNATURE| == 15 && |Ascii("uploadId")| == 8 && |Ascii("partNumber")| == 10;
    assert |Ascii("list-type")| == 9 && |Ascii("uploads")| == 7;
  }

  lemma QueryAnswers(q: bytes, mode: QueryMode)
    requires Parameters(q, mode).Some?
    ensures AnswersFrom(q, FactsOf(q, mode))
  {
    hide Parameters, ValuesChecked, FlagCount, ValuesOf, Split, LeftOut;
    LookedUpNames(mode);
    LookupsInParameters(q, mode, Ascii("uploadId"));
    LookupsInParameters(q, mode, Ascii("partNumber"));
    LookupsInParameters(q, mode, Ascii("list-type"));
    LookupsInParameters(q, mode, Ascii("uploads"));
  }

  lemma NamesDiffer()
    ensures Ascii("uploads") !in {Ascii("uploadId"), Ascii("partNumber"), Ascii("list-type")}
    ensures Ascii("uploadId") !in {Ascii("partNumber"), Ascii("list-type")} && Ascii("partNumber") != Ascii("list-type")
  {
    assert |Ascii("uploadId")| == 8 && |Ascii("partNumber")| == 10;
    assert |Ascii("list-type")| == 9 && |Ascii("uploads")| == 7;
  }

  // ------------------------------------------------------------------ the table

  /** The whole decision from the facts, without the query. */
  lemma DetectionFromFacts(verb: Method, route: bool, q: bytes, f: Facts)
    requires AnswersFrom(q, f)
    ensures var ids, numbers := OneOf(f.ids, Ascii("uploadId")), OneOf(f.numbers, Ascii("partNumber"));
            var lists := OneOf(f.listTypes, Ascii("list-type"));
            DetectOperation(verb, route, q) ==
              if verb == HEAD then Ok(if route then HeadObject else HeadBucket)
              else if verb != POST then DetectRest(verb, route, numbers, ids, lists)
              else if f.uploads > 1 then Err(Repeated(Ascii("uploads")))
              else if |f.ids| > 1 then Err(Repeated(Ascii("uploadId")))
              else if f.uploads == 1 && |f.ids| == 1 then Err(Ambiguous)
              else if f.uploads == 1 then Ok(CreateMultipartUpload)
              else if |f.ids| == 1 then
                (if CanonicalUuid(f.ids[0]) then Ok(CompleteMultipartUpload(f.ids[0])) else Err(InvalidUploadId))
              else DetectRest(verb, route, numbers, ids, lists)
  {
    hide UniqueParam, UniqueFlag, Ascii, CanonicalUuid, DetectRest;
  }

  lemma ReadIs(verb: Method, route: bool, q: bytes, f: Facts, op: Operation)
    requires AnswersFrom(q, f) && (verb == GET || verb == HEAD)
    ensures DetectOperation(verb, route, q) == Ok(op) <==> Is(verb, route, f, op)
  {
    DetectionFromFacts(verb, route, q, f);
    hide AnswersFrom, DetectOperation, Ascii, CanonicalUuid, ParseUnsigned;
  }

  lemma WriteIs(verb: Method, route: bool, q: bytes, f: Facts, op: Operation)
    requires AnswersFrom(q, f) && (verb == PUT || verb == POST)
    ensures DetectOperation(verb, route, q) == Ok(op) <==> Is(verb, route, f, op)
  {
    DetectionFromFacts(verb, route, q, f);
    hide AnswersFrom, DetectOperation, Ascii, CanonicalUuid, ParseUnsigned;
  }

  lemma OtherIs(verb: Method, route: bool, q: bytes, f: Facts, op: Operation)
    requires AnswersFrom(q, f) && (verb == DELETE || verb == OtherMethod)
    ensures DetectOperation(verb, route, q) == Ok(op) <==> Is(verb, route, f, op)
  {
    DetectionFromFacts(verb, route, q, f);
    hide AnswersFrom, DetectOperation, Ascii, CanonicalUuid, ParseUnsigned;
  }

  lemma ReadRefused(verb: Method, route: bool, q: bytes, f: Facts, e: DetectError)
    requires AnswersFrom(q, f) && (verb == GET || verb == HEAD)
    ensures DetectOperation(verb, route, q) == Err(e) <==> Refused(verb, f, e)
  {
    DetectionFromFacts(verb, route, q, f);
    NamesDiffer();
    hide AnswersFrom, DetectOperation, Ascii, CanonicalUuid, ParseUnsigned;
  }

  lemma WriteRefused(verb: Method, route: bool, q: bytes, f: Facts, e: DetectError)
    requires AnswersFrom(q, f) && (verb == PUT || verb == POST)
    ensures DetectOperation(verb, route, q) == Err(e) <==> Refused(verb, f, e)
  {
    DetectionFromFacts(verb, route, q, f);
    NamesDiffer();
    hide AnswersFrom, DetectOperation, Ascii, CanonicalUuid, ParseUnsigned;
  }

  lemma OtherRefused(verb: Method, route: bool, q: bytes, f: Facts, e: DetectError)
    requires AnswersFrom(q, f) && (verb == DELETE || verb == OtherMethod)
    ensures DetectOperation(verb, route, q) == Err(e) <==> Refused(verb, f, e)
  {
    DetectionFromFacts(verb, route, q, f);
    NamesDiffer();
    hide AnswersFrom, DetectOperation, Ascii, CanonicalUuid, ParseUnsigned;
  }

  /** A request is this operation exactly if the table says so ... */
  lemma DetectedIs(verb: Method, route: bool, q: bytes, f: Facts, op: Operation)
    requires AnswersFrom(q, f)
    ensures DetectOperation(verb, route, q) == Ok(op) <==> Is(verb, route, f, op)
  {
    hide AnswersFrom, DetectOperation, Is;
    if verb == GET || verb == HEAD { ReadIs(verb, route, q, f, op); }
    else if verb == PUT || verb == POST { WriteIs(verb, route, q, f, op); }
    else { OtherIs(verb, route, q, f, op); }
  }

  /** ... and is refused for this reason exactly if the table says so. */
  lemma DetectedRefused(verb: Method, route: bool, q: bytes, f: Facts, e: DetectError)
    requires AnswersFrom(q, f)
    ensures DetectOperation(verb, route, q) == Err(e) <==> Refused(verb, f, e)
  {
    hide AnswersFrom, DetectOperation, Refused;
    if verb == GET || verb == HEAD { ReadRefused(verb, route, q, f, e); }
    else if verb == PUT || verb == POST { WriteRefused(verb, route, q, f, e); }
    else { OtherRefused(verb, route, q, f, e); }
  }

  /** The table, for every decodable query and either way of signing. */
  lemma OperationIsRead(verb: Method, route: bool, q: bytes, mode: QueryMode)
    requires Parameters(q, mode).Some?
    ensures forall op :: DetectOperation(verb, route, q) == Ok(op) <==> Is(verb, route, FactsOf(q, mode), op)
    ensures forall e :: DetectOperation(verb, route, q) == Err(e) <==> Refused(verb, FactsOf(q, mode), e)
  {
    QueryAnswers(q, mode);
    var f := FactsOf(q, mode);
    hide *;
    forall op ensures DetectOperation(verb, route, q) == Ok(op) <==> Is(verb, route, f, op) {
      DetectedIs(verb, route, q, f, op);
    }
    forall e ensures DetectOperation(verb, route, q) == Err(e) <==> Refused(verb, f, e) {
      DetectedRefused(verb, route, q, f, e);
    }
  }

  // ------------------------------------------------------- upload ids and numbers

  /** The hyphenated text of a UUID: groups of 4, 2, 2, 2 and 6 bytes in lower-case hexadecimal. */
  function UuidText(b: bytes): bytes
    requires |b| == 16
  {
    HexEncode(b[..4]) + [45] + HexEncode(b[4..6]) + [45] + HexEncode(b[6..8]) + [45] + HexEncode(b[8..10]) + [45]
    + HexEncode(b[10..])
  }

  /** Every UUID is an upload id ... */
  lemma UuidIsCanonical(b: bytes)
    requires |b| == 16
    ensures CanonicalUuid(UuidText(b))
  {
    HexIsLower(b[..4]);
    HexIsLower(b[4..6]);
    HexIsLower(b[6..8]);
    HexIsLower(b[8..10]);
    HexIsLower(b[10..]);
    hide HexEncode;
  }

  predicate LowerHexText(s: bytes) {
    |s| % 2 == 0 && forall i :: 0 <= i < |s| ==> LowerHexDigit(s[i])
  }

  function Unhex(s: bytes): bytes
    requires LowerHexText(s)
  {
    if s == [] then [] else [16 * DigitValue(s[0], 16).value + DigitValue(s[1], 16).value] + Unhex(s[2..])
  }

  predicate LowerHexDigit(x: byte) { 48 <= x <= 57 || 97 <= x <= 102 }

  lemma HexPair(x: byte, y: byte)
    requires LowerHexDigit(x) && LowerHexDigit(y)
    ensures DigitValue(x, 16).Some? && DigitValue(y, 16).Some?
    ensures HexByte(16 * DigitValue(x, 16).value + DigitValue(y, 16).value) == [x, y]
  {
    var m, n := DigitValue(x, 16).value, DigitValue(y, 16).value;
    assert (16 * m + n) / 16 == m && (16 * m + n) % 16 == n;
    assert HexDigit(m) == x && HexDigit(n) == y;
  }

  lemma {:induction false} HexOfUnhex(s: bytes)
    requires LowerHexText(s)
    ensures |Unhex(s)| == |s| / 2 && HexEncode(Unhex(s)) == s
  {
    if s != [] {
      assert LowerHexDigit(s[0]) && LowerHexDigit(s[1]);
      HexPair(s[0], s[1]);
      HexOfUnhex(s[2..]);
      hide DigitValue, HexByte;
      assert Unhex(s)[1..] == Unhex(s[2..]);
      assert s == [s[0], s[1]] + s[2..];
    }
  }

  lemma UuidGroups(s: bytes)
    requires CanonicalUuid(s)
    ensures LowerHexText(s[..8]) && LowerHexText(s[9..13]) && LowerHexText(s[14..18]) && LowerHexText(s[19..23])
    ensures LowerHexText(s[24..])
    ensures s == s[..8] + [45] + s[9..13] + [45] + s[14..18] + [45] + s[19..23] + [45] + s[24..]
  {}

  lemma FiveGroups(b1: bytes, b2: bytes, b3: bytes, b4: bytes, b5: bytes)
    requires |b1| == 4 && |b2| == 2 && |b3| == 2 && |b4| == 2 && |b5| == 6
    ensures var b := b1 + b2 + b3 + b4 + b5;
            |b| == 16 && b[..4] == b1 && b[4..6] == b2 && b[6..8] == b3 && b[8..10] == b4 && b[10..] == b5
  {}

  /** ... and every upload id is a UUID. */
  lemma CanonicalIsUuid(s: bytes) returns (b: bytes)
    requires CanonicalUuid(s)
    ensures |b| == 16 && UuidText(b) == s
  {
    UuidGroups(s);
    hide CanonicalUuid, LowerHexText, HexEncode, Unhex;
    var g1, g2, g3, g4, g5 := s[..8], s[9..13], s[14..18], s[19..23], s[24..];
    HexOfUnhex(g1);
    HexOfUnhex(g2);
    HexOfUnhex(g3);
    HexOfUnhex(g4);
    HexOfUnhex(g5);
    b := Unhex(g1) + Unhex(g2) + Unhex(g3) + Unhex(g4) + Unhex(g5);
    FiveGroups(Unhex(g1), Unhex(g2), Unhex(g3), Unhex(g4), Unhex(g5));
  }

  /** The decimal text of a part number is that number; zero and numbers past 10000 are none. */
  lemma NumberTexts(n: nat)
    ensures 1 <= n <= 10000 ==> NumberText(Decimal(n), n)
    ensures n == 0 || n > 10000 ==> NoNumber(Decimal(n))
  {
    DecimalDigits(n);
    hide Decimal;
  }
}
