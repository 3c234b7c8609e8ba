/** Which operation a request is (src/handlers/s3.rs), read from method, route and query. */
module Operations {
  import opened Bytes
  import opened Percent
  import opened Target
  import opened Query

  datatype Method = HEAD | POST | PUT | DELETE | GET | OtherMethod

  datatype Operation =
    | HeadObject | HeadBucket | CreateMultipartUpload
    | CompleteMultipartUpload(uploadId: bytes)
    | UploadPart(uploadId: bytes, number: nat)
    | PutObjectOp
    | AbortMultipartUpload(uploadId: bytes)
    | DeleteObjectOp
    | ListParts(uploadId: bytes)
    | ListObjectsV2 | GetObjectOp | UnsupportedOp | MethodNotAllowed

  datatype DetectError =
    | BadQueryEncoding | Repeated(name: bytes) | Ambiguous | PartNumberRequired | UploadIdRequired
    | InvalidUploadId | InvalidPartNumber

  // --------------------------------------------------------------- query parameters

  /** Values of every parameter called `name`; None when a name, or such a value, is not UTF-8. */
  function ValuesChecked(pieces: seq<bytes>, name: bytes): Option<seq<bytes>>
    decreases |pieces|
  {
    if pieces == [] then Some([])
    else
      var (k, v) := RawPair(pieces[0]);
      if DecodeText(k).None? then None
      else if DecodeText(k).value == name && DecodeText(v).None? then None
      else match ValuesChecked(pieces[1..], name)
        case None => None
        case Some(rest) => Some(if DecodeText(k).value == name then [DecodeText(v).value] + rest else rest)
  }

  function UniqueParam(q: bytes, name: bytes): Result<Option<bytes>, DetectError> {
    match ValuesChecked(Split(q, AMPERSAND), name)
    case None => Err(BadQueryEncoding)
    case Some(vs) => if |vs| > 1 then Err(Repeated(name)) else Ok(if vs == [] then None else Some(vs[0]))
  }

  /** How often the parameter `name` appears with no value. */
  function FlagCount(pieces: seq<bytes>, name: bytes): Option<nat>
    decreases |pieces|
  {
    if pieces == [] then Some(0)
    else
      var (k, v) := RawPair(pieces[0]);
      if DecodeText(k).None? then None
      else match FlagCount(pieces[1..], name)
        case None => None
        case Some(n) => Some(if DecodeText(k).value == name && v == [] then n + 1 else n)
  }

  function UniqueFlag(q: bytes, name: bytes): Result<bool, DetectError> {
    match FlagCount(Split(q, AMPERSAND), name)
    case None => Err(BadQueryEncoding)
    case Some(n) => if n > 1 then Err(Repeated(name)) else Ok(n == 1)
  }

  lemma {:induction false} FlagCountSnoc(pieces: seq<bytes>, i: nat, name: bytes)
    requires i < |pieces|
    ensures match FlagCount(pieces[..i], name)
            case None => FlagCount(pieces, name) == None
            case Some(n) =>
              var (k, v) := RawPair(pieces[i]);
              if DecodeText(k).None? then FlagCount(pieces, name) == None
              else FlagCount(pieces[..i + 1], name) == Some(if DecodeText(k).value == name && v == [] then n + 1 else n)
    decreases i
  {
    hide RawPair, DecodeText;
    if i > 0 {
      FlagCountSnoc(pieces[1..], i - 1, name);
      assert pieces[..i][1..] == pieces[1..][..i - 1] && pieces[..i + 1][1..] == pieces[1..][..i];
    } else {
      assert pieces[..1][1..] == [];
    }
  }

  /** The counting loop of `unique_query_flag`. */
  method ComputeUniqueFlag(q: bytes, name: bytes) returns (r: Result<bool, DetectError>)
    ensures r == UniqueFlag(q, name)
  {
    hide RawPair, DecodeText, Split;
    var pieces := Split(q, AMPERSAND);
    var count := 0;
    for i := 0 to |pieces|
      invariant FlagCount(pieces[..i], name) == Some(count)
    {
      FlagCountSnoc(pieces, i, name);
      var (k, v) := RawPair(pieces[i]);
      var key := DecodeText(k);
      if key.None? { return Err(BadQueryEncoding); }
      if key.value == name && v == [] { count := count + 1; }
    }
    assert pieces[..|pieces|] == pieces;
    r := if count > 1 then Err(Repeated(name)) else Ok(count == 1);
  }

  // --------------------------------------------------------------------- detection

  /** A canonical lower-case hyphenated UUID. */
  predicate CanonicalUuid(s: bytes) {
    && |s| == 36
    && forall i :: 0 <= i < 36 ==>
         if i == 8 || i == 13 || i == 18 || i == 23 then s[i] == 45 else 48 <= s[i] <= 57 || 97 <= s[i] <= 102
  }

  function ParseUploadId(v: bytes): Result<bytes, DetectError> {
    if CanonicalUuid(v) then Ok(v) else Err(InvalidUploadId)
  }

  function ParsePartNumber(v: bytes): (r: Result<nat, DetectError>)
    ensures r.Ok? ==> 1 <= r.value <= 10000
  {
    match ParseUnsigned(v, 10, 65535)
    case None => Err(InvalidPartNumber)
    case Some(n) => if 1 <= n <= 10000 then Ok(n) else Err(InvalidPartNumber)
  }

  type Lookup = Result<Option<bytes>, DetectError>

  function DetectPost(uploads: Result<bool, DetectError>, id: Lookup): Result<Option<Operation>, DetectError> {
    match (uploads, id)
    case (Err(e), _) => Err(e)
    case (_, Err(e)) => Err(e)
    case (Ok(flag), Ok(value)) =>
      if flag && value.Some? then Err(Ambiguous)
      else if flag then Ok(Some(CreateMultipartUpload))
      else if value.Some? then
        (match ParseUploadId(value.value) case Err(e) => Err(e) case Ok(x) => Ok(Some(CompleteMultipartUpload(x))))
      else Ok(None)
  }

  function DetectPut(number: Option<bytes>, id: Option<bytes>): Result<Operation, DetectError> {
    if id.Some? && number.None? then Err(PartNumberRequired)
    else if number.Some? && id.None? then Err(UploadIdRequired)
    else if number.Some? then
      match ParseUploadId(id.value)
      case Err(e) => Err(e)
      case Ok(x) => (match ParsePartNumber(number.value) case Err(e) => Err(e) case Ok(n) => Ok(UploadPart(x, n)))
    else Ok(PutObjectOp)
  }

  function DetectDelete(id: Option<bytes>, route: bool): Result<Operation, DetectError> {
    if id.Some? then (match ParseUploadId(id.value) case Err(e) => Err(e) case Ok(x) => Ok(AbortMultipartUpload(x)))
    else Ok(if route then DeleteObjectOp else MethodNotAllowed)
  }

  function DetectGet(id: Option<bytes>, listType: Lookup, route: bool): Result<Operation, DetectError> {
    if id.Some? then (match ParseUploadId(id.value) case Err(e) => Err(e) case Ok(x) => Ok(ListParts(x)))
    else match listType
      case Err(e) => Err(e)
      case Ok(Some(t)) => Ok(if t == Ascii("2") then ListObjectsV2 else UnsupportedOp)
      case Ok(None) => Ok(if route then GetObjectOp else MethodNotAllowed)
  }

  function DetectRest(
      verb: Method, route: bool, number: Lookup, id: Lookup, listType: Lookup): Result<Operation, DetectError>
  {
    match (number, id)
    case (Err(e), _) => Err(e)
    case (_, Err(e)) => Err(e)
    case (Ok(n), Ok(u)) =>
      match verb
      case PUT => DetectPut(n, u)
      case DELETE => DetectDelete(u, route)
      case GET => DetectGet(u, listType, route)
      case _ => Ok(MethodNotAllowed)
  }

  function DetectOperation(verb: Method, route: bool, q: bytes): Result<Operation, DetectError> {
    var id := UniqueParam(q, Ascii("uploadId"));
    var number := UniqueParam(q, Ascii("partNumber"));
    var listType := UniqueParam(q, Ascii("list-type"));
    if verb == HEAD then Ok(if route then HeadObject else HeadBucket)
    else if verb == POST then
      match DetectPost(UniqueFlag(q, Ascii("uploads")), id)
      case Err(e) => Err(e)
      case Ok(Some(op)) => Ok(op)
      case Ok(None) => DetectRest(verb, route, number, id, listType)
    else DetectRest(verb, route, number, id, listType)
  }

  // ------------------------------------------------ detection sees only parameters

  function ValuesOf(ps: seq<Pair>, name: bytes): seq<bytes> {
    if ps == [] then []
    else (if ps[0].0 == name then [ps[0].1] else []) + ValuesOf(ps[1..], name)
  }

  /** The mode leaves parameters of this name out of the canonical form. */
  predicate LeftOut(mode: QueryMode, name: bytes) { mode == ExcludePresignedSignature && name == SIGNATURE }

  lemma DecodedHead(pieces: seq<bytes>, mode: QueryMode)
    requires pieces != [] && DecodedPairs(pieces, mode).Some?
    ensures var (k, v) := RawPair(pieces[0]);
            && DecodeText(k) == Some(Decode(k))
            && DecodedPairs(pieces[1..], mode).Some?
            && (LeftOut(mode, Decode(k)) ==> DecodedPairs(pieces, mode) == DecodedPairs(pieces[1..], mode))
            && (!LeftOut(mode, Decode(k)) ==>
                 && DecodeText(v) == Some(Decode(v))
                 && DecodedPairs(pieces, mode).value ==
                     [(Decode(k), Decode(v))] + DecodedPairs(pieces[1..], mode).value)
            && (Decode(v) == [] <==> v == [])
  {
    hide RawPair, Utf8Valid;
  }

  /** For a decodable query, looking up a name is looking it up in the decoded parameters ... */
  lemma {:induction false} ValuesInParameters(pieces: seq<bytes>, mode: QueryMode, name: bytes)
    requires DecodedPairs(pieces, mode).Some? && !LeftOut(mode, name)
    ensures ValuesChecked(pieces, name) == Some(ValuesOf(DecodedPairs(pieces, mode).value, name))
    decreases |pieces|
  {
    hide RawPair, DecodeText;
    if pieces != [] {
      DecodedHead(pieces, mode);
      ValuesInParameters(pieces[1..], mode, name);
      hide DecodedPairs;
      var rest := DecodedPairs(pieces[1..], mode).value;
      var all := DecodedPairs(pieces, mode).value;
      assert all == rest || all[1..] == rest;
      assert [] + ValuesOf(rest, name) == ValuesOf(rest, name);
    }
  }

  lemma MultiplicityOfCons(p: Pair, rest: seq<Pair>, x: Pair)
    ensures multiset([p] + rest)[x] == multiset(rest)[x] + (if p == x then 1 else 0)
  {
    assert multiset([p] + rest) == multiset{p} + multiset(rest);
  }

  /** ... and counting a flag is counting the pair with no value. */
  lemma {:induction false} FlagsInParameters(pieces: seq<bytes>, mode: QueryMode, name: bytes)
    requires DecodedPairs(pieces, mode).Some? && !LeftOut(mode, name)
    ensures FlagCount(pieces, name) == Some(multiset(DecodedPairs(pieces, mode).value)[(name, [])])
    decreases |pieces|
  {
    hide RawPair, DecodeText, Decode;
    if pieces != [] {
      DecodedHead(pieces, mode);
      FlagsInParameters(pieces[1..], mode, name);
      hide DecodedPairs;
      var (k, v) := RawPair(pieces[0]);
      MultiplicityOfCons((Decode(k), Decode(v)), DecodedPairs(pieces[1..], mode).value, (name, []));
    }
  }

  lemma {:induction false} ValuesOfAppend(a: seq<Pair>, b: seq<Pair>, name: bytes)
    ensures ValuesOf(a + b, name) == ValuesOf(a, name) + ValuesOf(b, name)
    decreases |a|
  {
    if a == [] {
      assert a + b == b;
    } else {
      ValuesOfAppend(a[1..], b, name);
      assert (a + b)[1..] == a[1..] + b && (a + b)[0] == a[0];
    }
  }

  lemma ValuesAround(ps: seq<Pair>, j: nat, name: bytes)
    requires j < |ps|
    ensures multiset(ValuesOf(ps, name)) ==
              multiset(ValuesOf(ps[..j] + ps[j + 1..], name)) + multiset(ValuesOf([ps[j]], name))
  {
    hide ValuesOf;
    var l, x, r := ps[..j], [ps[j]], ps[j + 1..];
    assert ps == l + (x + r);
    ValuesOfAppend(l, x + r, name);
    ValuesOfAppend(x, r, name);
    ValuesOfAppend(l, r, name);
  }

  /** Rearranged parameters give rearranged values. */
  lemma {:induction false} ValuesRearranged(a: seq<Pair>, b: seq<Pair>, name: bytes)
    requires multiset(a) == multiset(b)
    ensures multiset(ValuesOf(a, name)) == multiset(ValuesOf(b, name))
    decreases |a|
  {
    hide ValuesOf;
    if a == [] {
      assert |multiset(b)| == 0;
      assert b == [];
    } else {
      var j := TakeOut(a, b);
      ValuesAround(b, j, name);
      ValuesAround(a, 0, name);
      assert a[..0] + a[1..] == a[1..];
      ValuesRearranged(a[1..], b[..j] + b[j + 1..], name);
    }
  }

  /** An empty query splits into one empty piece, which is no parameter that anyone looks up. */
  lemma NothingToLookUp(name: bytes)
    requires name != []
    ensures ValuesChecked(Split([], AMPERSAND), name) == Some([]) && FlagCount(Split([], AMPERSAND), name) == Some(0)
  {
    var pieces := Split([], AMPERSAND);
    assert pieces == [[]] && pieces[1..] == [];
    assert RawPair(pieces[0]) == ([], []);
  }

  lemma LookupsInParameters(q: bytes, mode: QueryMode, name: bytes)
    requires Parameters(q, mode).Some? && name != [] && !LeftOut(mode, name)
    ensures ValuesChecked(Split(q, AMPERSAND), name) == Some(ValuesOf(Parameters(q, mode).value, name))
    ensures FlagCount(Split(q, AMPERSAND), name) == Some(multiset(Parameters(q, mode).value)[(name, [])])
  {
    hide DecodedPairs, ValuesChecked, FlagCount, Split;
    if q == [] {
      NothingToLookUp(name);
    } else {
      ValuesInParameters(Split(q, AMPERSAND), mode, name);
      FlagsInParameters(Split(q, AMPERSAND), mode, name);
    }
  }

  /** Queries with the same signed parameters answer every lookup of a signed name alike. */
  lemma SameLookups(p: bytes, q: bytes, mode: QueryMode, name: bytes)
    requires name != [] && !LeftOut(mode, name)
    requires Parameters(p, mode).Some? && Parameters(q, mode).Some?
    requires multiset(Parameters(p, mode).value) == multiset(Parameters(q, mode).value)
    ensures UniqueParam(p, name) == UniqueParam(q, name) && UniqueFlag(p, name) == UniqueFlag(q, name)
  {
    hide Parameters, ValuesChecked, FlagCount, ValuesOf, Split;
    var a, b := Parameters(p, mode).value, Parameters(q, mode).value;
    LookupsInParameters(p, mode, name);
    LookupsInParameters(q, mode, name);
    ValuesRearranged(a, b, name);
    var va, vb := ValuesOf(a, name), ValuesOf(b, name);
    assert |va| == |multiset(va)| == |multiset(vb)| == |vb|;
    if |va| == 1 { assert vb[0] in multiset(va); }
  }
}
