/** What a signature covers: requests that sign alike mean the same. */
module RequestMeaning {
  import opened Bytes
  import opened Percent
  import opened Target
  import opened Query
  import opened QueryProofs
  import opened Operations

  /** The parameters that decide the operation. */
  predicate Decisive(name: bytes) {
    name == Ascii("uploadId") || name == Ascii("partNumber") || name == Ascii("list-type") || name == Ascii("uploads")
  }

  /** Both ways of signing cover them: none of them is the signature itself. */
  lemma DecisiveIsSigned(name: bytes, mode: QueryMode)
    requires Decisive(name)
    ensures name != [] && !LeftOut(mode, name)
  {
    assert |SIGNATURE| == 15 && |name| > 0 && |name| < 15;
  }

  lemma SameLookupsSameOperation(verb: Method, route: bool, p: bytes, q: bytes)
    requires forall name :: Decisive(name) ==>
               UniqueParam(p, name) == UniqueParam(q, name) && UniqueFlag(p, name) == UniqueFlag(q, name)
    ensures DetectOperation(verb, route, p) == DetectOperation(verb, route, q)
  {
    hide UniqueParam, UniqueFlag, DetectPost, DetectRest, Ascii;
    assert Decisive(Ascii("uploadId")) && Decisive(Ascii("partNumber"));
    assert Decisive(Ascii("list-type")) && Decisive(Ascii("uploads"));
  }

  /**
    Equal canonical queries are read as the same operation, for every method and route,
    whether the signature is in a header or, left out of the canonical form, in the query.
  */
  lemma SameCanonicalQuerySameOperation(verb: Method, route: bool, p: bytes, q: bytes, mode: QueryMode)
    requires CanonicalQuery(p, mode).Some? && CanonicalQuery(p, mode) == CanonicalQuery(q, mode)
    ensures DetectOperation(verb, route, p) == DetectOperation(verb, route, q)
  {
    hide Parameters, DetectOperation;
    CanonicalQueryIsCompleteInvariant(p, q, mode);
    hide CanonicalQuery, Decisive, LeftOut;
    forall name | Decisive(name)
      ensures UniqueParam(p, name) == UniqueParam(q, name) && UniqueFlag(p, name) == UniqueFlag(q, name)
    {
      DecisiveIsSigned(name, mode);
      SameLookups(p, q, mode, name);
    }
    SameLookupsSameOperation(verb, route, p, q);
  }

  /**
    Two requests with the same method and Host whose paths and queries have the same
    canonical forms, in either way of signing, are the same operation on the same bucket
    and key, or the same error.
  */
  lemma SameCanonicalRequestSameMeaning(
      verb: Method, hostBucket: Option<bytes>, path1: bytes, query1: bytes, path2: bytes, query2: bytes,
      mode: QueryMode)
    requires CanonicalUri(path1) == CanonicalUri(path2)
    requires CanonicalQuery(query1, mode).Some? && CanonicalQuery(query1, mode) == CanonicalQuery(query2, mode)
    ensures ResolveTarget(path1, hostBucket) == ResolveTarget(path2, hostBucket)
    ensures DetectOperation(verb, HasObjectRoute(path1, hostBucket.Some?), query1)
            == DetectOperation(verb, HasObjectRoute(path2, hostBucket.Some?), query2)
  {
    SameCanonicalUriSameTarget(path1, path2, hostBucket);
    SameCanonicalQuerySameOperation(verb, HasObjectRoute(path1, hostBucket.Some?), query1, query2, mode);
  }
}
