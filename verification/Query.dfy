/** Canonical query strings (src/auth.rs): decoded, re-encoded, sorted, joined. */
module Query {
  import opened Bytes
  import opened Percent
  import opened Target

  const AMPERSAND: byte := 38
  const EQUALS: byte := 61
  const SIGNATURE: bytes := Ascii("X-Amz-Signature")

  datatype QueryMode = IncludeAll | ExcludePresignedSignature

  type Pair = (bytes, bytes)

  /** Name and value of one `&`-separated piece; a piece without '=' has an empty value. */
  function RawPair(piece: bytes): Pair {
    match SplitOnce(piece, EQUALS) case Some((n, v)) => (n, v) case None => (piece, [])
  }

  /** The decoded parameters of the pieces, or None when some text is not UTF-8. */
  function DecodedPairs(pieces: seq<bytes>, mode: QueryMode): Option<seq<Pair>>
    decreases |pieces|
  {
    if pieces == [] then Some([])
    else
      var (n, v) := RawPair(pieces[0]);
      if DecodeText(n).None? then None
      else if mode == ExcludePresignedSignature && DecodeText(n).value == SIGNATURE then DecodedPairs(pieces[1..], mode)
      else if DecodeText(v).None? then None
      else match DecodedPairs(pieces[1..], mode)
        case None => None
        case Some(rest) => Some([(DecodeText(n).value, DecodeText(v).value)] + rest)
  }

  /** The parameters of a query string; an empty string has none. */
  function Parameters(q: bytes, mode: QueryMode): Option<seq<Pair>> {
    if q == [] then Some([]) else DecodedPairs(Split(q, AMPERSAND), mode)
  }

  function EncodePair(p: Pair): Pair { (Encode(p.0), Encode(p.1)) }

  function EncodePairs(ps: seq<Pair>): seq<Pair> { Map(EncodePair, ps) }

  // ----------------------------------------------------------------------- sorting

  predicate PairLeq(a: Pair, b: Pair) {
    if a.0 == b.0 then LexLeq(a.1, b.1) else LexLeq(a.0, b.0)
  }

  predicate Sorted(ps: seq<Pair>) { forall i, j :: 0 <= i < j < |ps| ==> PairLeq(ps[i], ps[j]) }

  function Insert(p: Pair, ps: seq<Pair>): (r: seq<Pair>)
    ensures multiset(r) == multiset(ps) + multiset{p}
  {
    if ps == [] then [p]
    else if PairLeq(p, ps[0]) then [p] + ps
    else
      assert ps == [ps[0]] + ps[1..];
      [ps[0]] + Insert(p, ps[1..])
  }

  /** The sorted rearrangement that `Vec::sort` leaves. */
  function Sort(ps: seq<Pair>): (r: seq<Pair>)
    ensures multiset(r) == multiset(ps)
  {
    if ps == [] then []
    else
      assert ps == [ps[0]] + ps[1..];
      Insert(ps[0], Sort(ps[1..]))
  }

  lemma PairTotal(a: Pair, b: Pair)
    ensures PairLeq(a, b) || PairLeq(b, a)
  {
    LexTotal(a.0, b.0);
    LexTotal(a.1, b.1);
  }

  lemma PairAntisymmetric(a: Pair, b: Pair)
    requires PairLeq(a, b) && PairLeq(b, a)
    ensures a == b
  {
    if a.0 == b.0 { LexAntisymmetric(a.1, b.1); } else { LexAntisymmetric(a.0, b.0); }
  }

  lemma PairTransitive(a: Pair, b: Pair, c: Pair)
    requires PairLeq(a, b) && PairLeq(b, c)
    ensures PairLeq(a, c)
  {
    if a.0 == b.0 && b.0 == c.0 { LexTransitive(a.1, b.1, c.1); }
    else if a.0 != b.0 && b.0 != c.0 {
      LexTransitive(a.0, b.0, c.0);
      if a.0 == c.0 { LexAntisymmetric(a.0, b.0); }
    }
  }

  lemma {:induction false} InsertSorts(p: Pair, ps: seq<Pair>)
    requires Sorted(ps)
    ensures Sorted(Insert(p, ps))
    decreases |ps|
  {
    hide PairLeq;
    if ps == [] {
    } else if PairLeq(p, ps[0]) {
      forall j | 0 <= j < |ps| ensures PairLeq(p, ps[j]) {
        if j > 0 { PairTransitive(p, ps[0], ps[j]); }
      }
    } else {
      PairTotal(p, ps[0]);
      var tail := Insert(p, ps[1..]);
      InsertSorts(p, ps[1..]);
      forall j | 0 <= j < |tail| ensures PairLeq(ps[0], tail[j]) {
        assert tail[j] in multiset(tail);
        if tail[j] != p {
          assert tail[j] in multiset(ps[1..]);
          var k :| 0 <= k < |ps[1..]| && ps[1..][k] == tail[j];
          assert ps[k + 1] == tail[j];
        }
      }
    }
  }

  lemma {:induction false} SortSorts(ps: seq<Pair>)
    ensures Sorted(Sort(ps))
    decreases |ps|
  {
    if ps != [] {
      SortSorts(ps[1..]);
      InsertSorts(ps[0], Sort(ps[1..]));
    }
  }

  lemma SameLeast(a: seq<Pair>, b: seq<Pair>)
    requires Sorted(a) && Sorted(b) && multiset(a) == multiset(b) && a != []
    ensures b != [] && a[0] == b[0]
  {
    hide PairLeq;
    assert a[0] in multiset(b);
    var i :| 0 <= i < |b| && b[i] == a[0];
    assert b[0] in multiset(a);
    var j :| 0 <= j < |a| && a[j] == b[0];
    if i > 0 && j > 0 { PairAntisymmetric(a[0], b[0]); }
  }

  /** A multiset has one sorted arrangement. */
  lemma {:induction false} SortedIsUnique(a: seq<Pair>, b: seq<Pair>)
    requires Sorted(a) && Sorted(b) && multiset(a) == multiset(b)
    ensures a == b
    decreases |a|
  {
    hide PairLeq;
    if a == [] {
      assert |multiset(b)| == 0;
    } else {
      SameLeast(a, b);
      TailMultiset(a);
      TailMultiset(b);
      SortedIsUnique(a[1..], b[1..]);
      assert a == [a[0]] + a[1..] && b == [b[0]] + b[1..];
    }
  }

  // --------------------------------------------------------------- canonical form

  function Render(p: Pair): bytes { p.0 + [EQUALS] + p.1 }

  function RenderAll(ps: seq<Pair>): seq<bytes> { Map(Render, ps) }

  function JoinPairs(ps: seq<Pair>): bytes {
    if ps == [] then [] else Join(RenderAll(ps), AMPERSAND)
  }

  function CanonicalQuery(q: bytes, mode: QueryMode): Option<bytes> {
    match Parameters(q, mode)
    case None => None
    case Some(ps) => Some(JoinPairs(Sort(EncodePairs(ps))))
  }

  lemma EncodeSnoc(ps: seq<Pair>, p: Pair)
    ensures EncodePairs(ps + [p]) == EncodePairs(ps) + [EncodePair(p)]
  {}

  /** Parameters read before the rest. */
  function After(done: seq<Pair>, rest: Option<seq<Pair>>): (r: Option<seq<Pair>>)
    ensures done == [] ==> r == rest
  {
    match rest case None => None case Some(ps) => assert [] + ps == ps; Some(done + ps)
  }

  /** The loop that decodes, filters and re-encodes, then sorts and joins. */
  method ComputeCanonicalQuery(q: bytes, mode: QueryMode) returns (r: Option<bytes>)
    ensures r == CanonicalQuery(q, mode)
  {
    hide Encode, DecodeText, RawPair, Split;
    if q == [] {
      assert EncodePairs([]) == [];
      return Some([]);
    }
    hide Sort, JoinPairs;
    var pieces := Split(q, AMPERSAND);
    var params: seq<Pair> := [];
    ghost var decoded: seq<Pair> := [];
    assert pieces[0..] == pieces && After([], DecodedPairs(pieces, mode)) == DecodedPairs(pieces, mode);
    for i := 0 to |pieces|
      invariant params == EncodePairs(decoded)
      invariant DecodedPairs(pieces, mode) == After(decoded, DecodedPairs(pieces[i..], mode))
    {
      assert pieces[i..][1..] == pieces[i + 1..];
      var (n, v) := RawPair(pieces[i]);
      var name := DecodeText(n);
      if name.None? { return None; }
      if mode == ExcludePresignedSignature && name.value == SIGNATURE { continue; }
      var value := DecodeText(v);
      if value.None? { return None; }
      ghost var p := (name.value, value.value);
      ghost var rest := DecodedPairs(pieces[i + 1..], mode);
      assert rest.Some? ==> decoded + ([p] + rest.value) == (decoded + [p]) + rest.value;
      EncodeSnoc(decoded, p);
      params := params + [(Encode(name.value), Encode(value.value))];
      decoded := decoded + [p];
    }
    assert decoded + [] == decoded;
    r := Some(JoinPairs(Sort(params)));
  }
}
