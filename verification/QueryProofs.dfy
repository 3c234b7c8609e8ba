/** Two queries sign alike exactly when they carry the same parameters. */
module QueryProofs {
  import opened Bytes
  import opened Percent
  import opened Query

  // ------------------------------------------------------------ reading a rendering

  lemma {:induction false} EncodedHasNoSeparators(s: bytes)
    ensures AMPERSAND !in Encode(s) && EQUALS !in Encode(s)
  {
    if s != [] { EncodedHasNoSeparators(s[1..]); }
  }

  function DecodePair(p: Pair): Pair { (Decode(p.0), Decode(p.1)) }

  lemma RenderedPairReadsBack(p: Pair)
    ensures AMPERSAND !in Render(EncodePair(p)) && RawPair(Render(EncodePair(p))) == EncodePair(p)
    ensures DecodePair(EncodePair(p)) == p
  {
    hide Encode, Decode;
    EncodedHasNoSeparators(p.0);
    EncodedHasNoSeparators(p.1);
    DecodeOfEncode(p.0);
    DecodeOfEncode(p.1);
    SplitOnceAt(Encode(p.0), EQUALS, Encode(p.1));
  }

  /** Every pair is the encoding of something. */
  ghost predicate AllEncoded(ps: seq<Pair>) {
    forall i :: 0 <= i < |ps| ==> ps[i] == EncodePair(DecodePair(ps[i]))
  }

  lemma JoinedPairsSplitBack(ps: seq<Pair>)
    requires AllEncoded(ps) && ps != []
    ensures JoinPairs(ps) != [] && Split(JoinPairs(ps), AMPERSAND) == RenderAll(ps)
  {
    hide Encode, Decode, Render, Join, Split;
    forall i | 0 <= i < |ps| ensures AMPERSAND !in RenderAll(ps)[i] { RenderedPairReadsBack(DecodePair(ps[i])); }
    SplitOfJoin(RenderAll(ps), AMPERSAND);
    JoinIsNotEmpty(ps);
  }

  lemma JoinIsNotEmpty(ps: seq<Pair>)
    requires ps != []
    ensures JoinPairs(ps) != []
  {
    var r := RenderAll(ps);
    assert |r[0]| >= 1 by { assert r[0] == Render(ps[0]); }
  }

  /** The joined text determines the pairs. */
  lemma JoinPairsIsInjective(a: seq<Pair>, b: seq<Pair>)
    requires AllEncoded(a) && AllEncoded(b) && JoinPairs(a) == JoinPairs(b)
    ensures a == b
  {
    hide EncodePair, DecodePair, Render, JoinPairs;
    assert JoinPairs([]) == [] by { NothingJoined(); }
    if a != [] { JoinedPairsSplitBack(a); }
    if b != [] { JoinedPairsSplitBack(b); }
    assert RenderAll([]) == [];
    assert RenderAll(a) == RenderAll(b);
    forall i | 0 <= i < |a| ensures a[i] == b[i] {
      assert RenderAll(a)[i] == Render(a[i]) && RenderAll(b)[i] == Render(b[i]);
      RenderedPairReadsBack(DecodePair(a[i]));
      RenderedPairReadsBack(DecodePair(b[i]));
    }
  }

  lemma NothingJoined()
    ensures JoinPairs([]) == []
  {}

  // ----------------------------------------------------------- decoded parameters

  /** Valid text, and nothing the mode leaves out. */
  predicate Clean(ps: seq<Pair>, mode: QueryMode) {
    forall i :: 0 <= i < |ps| ==>
      && Utf8Valid(ps[i].0) && Utf8Valid(ps[i].1)
      && !(mode == ExcludePresignedSignature && ps[i].0 == SIGNATURE)
  }

  lemma {:induction false} DecodedIsClean(pieces: seq<bytes>, mode: QueryMode)
    requires DecodedPairs(pieces, mode).Some?
    ensures Clean(DecodedPairs(pieces, mode).value, mode)
    decreases |pieces|
  {
    hide RawPair, Decode, Utf8Valid;
    if pieces != [] { DecodedIsClean(pieces[1..], mode); }
  }

  /** Rendered clean parameters decode to themselves. */
  lemma {:induction false} RenderedDecodes(ps: seq<Pair>, mode: QueryMode)
    requires Clean(ps, mode)
    ensures DecodedPairs(RenderAll(EncodePairs(ps)), mode) == Some(ps)
    decreases |ps|
  {
    hide Encode, Decode, Render, RawPair, Utf8Valid;
    if ps == [] {
    } else {
      var pieces := RenderAll(EncodePairs(ps));
      assert pieces[0] == Render(EncodePair(ps[0]));
      RenderedPairReadsBack(ps[0]);
      assert pieces[1..] == RenderAll(EncodePairs(ps[1..]));
      RenderedDecodes(ps[1..], mode);
      assert [ps[0]] + ps[1..] == ps;
    }
  }

  lemma EncodedIsEncoded(ps: seq<Pair>)
    ensures AllEncoded(EncodePairs(ps)) && Map(DecodePair, EncodePairs(ps)) == ps
  {
    hide EncodePair, DecodePair;
    forall i | 0 <= i < |ps|
      ensures EncodePairs(ps)[i] == EncodePair(DecodePair(EncodePairs(ps)[i]))
      ensures DecodePair(EncodePairs(ps)[i]) == ps[i]
    {
      RenderedPairReadsBack(ps[i]);
    }
  }

  lemma AllEncodedRearranged(a: seq<Pair>, b: seq<Pair>)
    requires AllEncoded(a) && multiset(a) == multiset(b)
    ensures AllEncoded(b)
  {
    hide EncodePair, DecodePair;
    forall i | 0 <= i < |b| ensures b[i] == EncodePair(DecodePair(b[i])) {
      assert b[i] in multiset(a);
      var k :| 0 <= k < |a| && a[k] == b[i];
    }
  }

  lemma CleanRearranged(a: seq<Pair>, b: seq<Pair>, mode: QueryMode)
    requires Clean(a, mode) && multiset(a) == multiset(b)
    ensures Clean(b, mode)
  {
    hide Utf8Valid;
    forall i | 0 <= i < |b|
      ensures Utf8Valid(b[i].0) && Utf8Valid(b[i].1) && !(mode == ExcludePresignedSignature && b[i].0 == SIGNATURE)
    {
      assert b[i] in multiset(a);
      var k :| 0 <= k < |a| && a[k] == b[i];
    }
  }

  // ------------------------------------------------------------------ the invariant

  function Canonicalised(ps: seq<Pair>): bytes { JoinPairs(Sort(EncodePairs(ps))) }

  /** Equal canonical text means equal parameters ... */
  lemma SameTextSameParameters(a: seq<Pair>, b: seq<Pair>)
    requires Canonicalised(a) == Canonicalised(b)
    ensures multiset(a) == multiset(b)
  {
    hide EncodePairs, Sort, JoinPairs, EncodePair, DecodePair;
    var ea, eb := EncodePairs(a), EncodePairs(b);
    EncodedIsEncoded(a);
    EncodedIsEncoded(b);
    AllEncodedRearranged(ea, Sort(ea));
    AllEncodedRearranged(eb, Sort(eb));
    JoinPairsIsInjective(Sort(ea), Sort(eb));
    MapRearranged(DecodePair, ea, eb);
  }

  /** ... and the other way round, whatever the order. */
  lemma SameParametersSameText(a: seq<Pair>, b: seq<Pair>)
    requires multiset(a) == multiset(b)
    ensures Canonicalised(a) == Canonicalised(b)
  {
    hide Sort, JoinPairs, EncodePair;
    MapRearranged(EncodePair, a, b);
    SortSorts(EncodePairs(a));
    SortSorts(EncodePairs(b));
    SortedIsUnique(Sort(EncodePairs(a)), Sort(EncodePairs(b)));
  }

  /**
    The canonical query is a complete invariant: two decodable queries have the same
    canonical form if and only if they carry the same parameters, each as often.
  */
  lemma CanonicalQueryIsCompleteInvariant(p: bytes, q: bytes, mode: QueryMode)
    requires CanonicalQuery(p, mode).Some? && CanonicalQuery(q, mode).Some?
    ensures CanonicalQuery(p, mode) == CanonicalQuery(q, mode)
            <==> multiset(Parameters(p, mode).value) == multiset(Parameters(q, mode).value)
  {
    hide Parameters, Sort, JoinPairs, EncodePairs;
    var a, b := Parameters(p, mode).value, Parameters(q, mode).value;
    if CanonicalQuery(p, mode) == CanonicalQuery(q, mode) { SameTextSameParameters(a, b); }
    if multiset(a) == multiset(b) { SameParametersSameText(a, b); }
  }

  /** A canonical query is its own canonical form. */
  lemma CanonicalQueryIsIdempotent(q: bytes, mode: QueryMode)
    requires CanonicalQuery(q, mode).Some?
    ensures CanonicalQuery(CanonicalQuery(q, mode).value, mode) == CanonicalQuery(q, mode)
  {
    hide Sort, JoinPairs, EncodePair, DecodePair, DecodedPairs, Split;
    var ps := Parameters(q, mode).value;
    assert Clean(ps, mode) by { if q != [] { DecodedIsClean(Split(q, AMPERSAND), mode); } }
    var sorted := Sort(EncodePairs(ps));
    var back := Map(DecodePair, sorted);
    EncodedIsEncoded(ps);
    AllEncodedRearranged(EncodePairs(ps), sorted);
    MapRearranged(DecodePair, sorted, EncodePairs(ps));
    assert multiset(back) == multiset(ps);
    CleanRearranged(ps, back, mode);
    assert EncodePairs(back) == sorted;
    if sorted == [] {
      assert JoinPairs([]) == [] by { NothingJoined(); }
      assert back == [];
    } else {
      JoinedPairsSplitBack(sorted);
      RenderedDecodes(back, mode);
    }
    assert Parameters(JoinPairs(sorted), mode) == Some(back);
    SameParametersSameText(back, ps);
  }

  // --------------------------------------------------------------- on the text

  /** Names first, then values, bytewise. */
  ghost predicate InOrder(a: Pair, b: Pair) {
    if a.0 == b.0 then a.1 == b.1 || Before(a.1, b.1) else Before(a.0, b.0)
  }

  /** The name and value on either side of the first '='. */
  predicate Reads(piece: bytes, p: Pair) { SplitOnce(piece, EQUALS) == Some(p) }

  /**
    The text of a canonical query, read as text: `name=value` pieces between '&', names
    and values encoded, in bytewise order of the names and then of the values, and
    decoding to exactly the parameters of the query.
  */
  lemma CanonicalQueryText(q: bytes, mode: QueryMode) returns (pairs: seq<Pair>)
    requires CanonicalQuery(q, mode).Some?
    ensures CanonicalQuery(q, mode).value == [] <==> pairs == []
    ensures pairs != [] ==>
              var pieces := Split(CanonicalQuery(q, mode).value, AMPERSAND);
              |pieces| == |pairs| && forall i :: 0 <= i < |pairs| ==> Reads(pieces[i], pairs[i])
    ensures forall i, j :: 0 <= i < j < |pairs| ==> InOrder(pairs[i], pairs[j])
    ensures AllEncoded(pairs) && multiset(Map(DecodePair, pairs)) == multiset(Parameters(q, mode).value)
  {
    hide Sort, JoinPairs, EncodePair, DecodePair, Parameters, Split, SplitOnce, PairLeq, Before;
    var ps := Parameters(q, mode).value;
    pairs := Sort(EncodePairs(ps));
    SortSorts(EncodePairs(ps));
    EncodedIsEncoded(ps);
    AllEncodedRearranged(EncodePairs(ps), pairs);
    MapRearranged(DecodePair, pairs, EncodePairs(ps));
    NothingJoined();
    if pairs != [] {
      JoinedPairsSplitBack(pairs);
      forall i | 0 <= i < |pairs| ensures Reads(RenderAll(pairs)[i], pairs[i]) { RenderedReads(DecodePair(pairs[i])); }
    }
    forall i, j | 0 <= i < j < |pairs| ensures InOrder(pairs[i], pairs[j]) { OrderIsBytewise(pairs[i], pairs[j]); }
  }

  lemma RenderedReads(p: Pair)
    ensures Reads(Render(EncodePair(p)), EncodePair(p))
  {
    hide Encode;
    EncodedHasNoSeparators(p.0);
    SplitOnceAt(Encode(p.0), EQUALS, Encode(p.1));
  }

  lemma OrderIsBytewise(a: Pair, b: Pair)
    requires PairLeq(a, b)
    ensures InOrder(a, b)
  {
    hide LexLeq, Before;
    LexIsBytewise(a.0, b.0);
    LexIsBytewise(a.1, b.1);
  }

  /** Leaving the signature out is leaving out every parameter of that name, and only those. */
  function Without(ps: seq<Pair>, name: bytes): seq<Pair> {
    if ps == [] then [] else (if ps[0].0 == name then [] else [ps[0]]) + Without(ps[1..], name)
  }

  lemma {:induction false} PiecesWithoutSignature(pieces: seq<bytes>)
    requires DecodedPairs(pieces, IncludeAll).Some?
    ensures DecodedPairs(pieces, ExcludePresignedSignature) ==
              Some(Without(DecodedPairs(pieces, IncludeAll).value, Ascii("X-Amz-Signature")))
    decreases |pieces|
  {
    hide RawPair, Decode, Utf8Valid;
    if pieces != [] {
      PiecesWithoutSignature(pieces[1..]);
      var all, rest := DecodedPairs(pieces, IncludeAll).value, DecodedPairs(pieces[1..], IncludeAll).value;
      assert all[1..] == rest;
      assert [] + Without(rest, Ascii("X-Amz-Signature")) == Without(rest, Ascii("X-Amz-Signature"));
    }
  }

  lemma SignatureIsLeftOut(q: bytes)
    requires Parameters(q, IncludeAll).Some?
    ensures Parameters(q, ExcludePresignedSignature) ==
              Some(Without(Parameters(q, IncludeAll).value, Ascii("X-Amz-Signature")))
  {
    hide DecodedPairs, Split;
    if q != [] { PiecesWithoutSignature(Split(q, AMPERSAND)); }
  }

  /** Round trip: a query made of parameters is read as them, in order. */
  lemma QueryRoundTrip(ps: seq<Pair>)
    requires ps != [] && Clean(ps, IncludeAll)
    ensures Parameters(Join(RenderAll(EncodePairs(ps)), AMPERSAND), IncludeAll) == Some(ps)
  {
    hide Encode, Decode, Render, Split, Join, DecodedPairs, Utf8Valid;
    EncodedIsEncoded(ps);
    JoinedPairsSplitBack(EncodePairs(ps));
    RenderedDecodes(ps, IncludeAll);
  }

  /** A name without '=' is a parameter with no value. */
  lemma BareName(name: bytes)
    requires name != [] && Utf8Valid(name)
    ensures Parameters(Encode(name), IncludeAll) == Some([(name, [])])
  {
    EncodedHasNoSeparators(name);
    DecodeOfEncode(name);
    var pieces: seq<bytes>, none: seq<Pair> := [Encode(name)], [];
    assert Split(Encode(name), AMPERSAND) == pieces && pieces[1..] == [];
    assert RawPair(Encode(name)) == (Encode(name), []) && Decode([]) == [];
    assert DecodedPairs(pieces[1..], IncludeAll) == Some(none);
    assert [(name, [])] + none == [(name, [])];
    assert Encode(name) != [];
  }
}
