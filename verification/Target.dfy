/** Which bucket and key a request addresses (src/s3/target.rs). */
module Target {
  import opened Bytes
  import opened Names
  import opened Percent

  datatype TargetError = MissingBucket | MissingKey | InvalidPercentEncoding | InvalidDomain(cause: DomainError)

  datatype S3Target = S3Target(bucket: bytes, key: bytes, virtualHosted: bool)

  /** `percent_decode`: decoded text, if it is UTF-8. */
  function DecodeText(s: bytes): Option<bytes> {
    if Utf8Valid(Decode(s)) then Some(Decode(s)) else None
  }

  function StripSlash(path: bytes): bytes {
    if path != [] && path[0] == SLASH then path[1..] else path
  }

  function ReadBucket(s: bytes): Result<bytes, TargetError> {
    match DecodeText(s)
    case None => Err(InvalidPercentEncoding)
    case Some(text) => (match ParseBucket(text) case Err(e) => Err(InvalidDomain(e)) case Ok(b) => Ok(b))
  }

  function ReadKey(s: bytes): Result<bytes, TargetError> {
    match DecodeText(s)
    case None => Err(InvalidPercentEncoding)
    case Some(text) => (match ParseKey(text) case Err(e) => Err(InvalidDomain(e)) case Ok(k) => Ok(k))
  }

  function ReadBoth(bucket: bytes, key: bytes, hosted: bool): Result<S3Target, TargetError> {
    match ReadBucket(bucket)
    case Err(e) => Err(e)
    case Ok(b) => (match ReadKey(key) case Err(e) => Err(e) case Ok(k) => Ok(S3Target(b, k, hosted)))
  }

  function ResolvePathStyle(path: bytes): Result<S3Target, TargetError> {
    match SplitOnce(StripSlash(path), SLASH)
    case None => Err(MissingKey)
    case Some((bucket, key)) => ReadBoth(bucket, key, false)
  }

  function ResolvePathStyleBucket(path: bytes): Result<bytes, TargetError> {
    var p := StripSlash(path);
    if p == [] then Err(MissingBucket)
    else match SplitOnce(p, SLASH)
      case Some((bucket, key)) => if key == [] then ReadBucket(bucket) else Err(MissingKey)
      case None => ReadBucket(p)
  }

  /** `resolve_s3_target`, given the bucket prefix found in a virtual-hosted Host, if any. */
  function ResolveTarget(path: bytes, hostBucket: Option<bytes>): Result<S3Target, TargetError> {
    match hostBucket
    case Some(bucket) => ReadBoth(bucket, StripSlash(path), true)
    case None => ResolvePathStyle(path)
  }

  /** `has_object_route`. */
  predicate HasObjectRoute(path: bytes, virtualHosted: bool) {
    var p := StripSlash(path);
    if virtualHosted then p != []
    else match SplitOnce(p, SLASH) case Some((bucket, key)) => bucket != [] && key != [] case None => false
  }

  // -------------------------------------------------- canonical form keeps meaning

  lemma StripSlashCommutes(path: bytes)
    ensures StripSlash(CanonicalUri(path)) == CanonicalUri(StripSlash(path))
  {
    CanonicalUriOfNothing(path);
  }

  lemma ReadsTheSame(s: bytes)
    ensures ReadBucket(CanonicalUri(s)) == ReadBucket(s) && ReadKey(CanonicalUri(s)) == ReadKey(s)
  {
    CanonicalUriDecodesTheSame(s);
  }

  /** A path and its canonical form resolve alike, errors included. */
  lemma CanonicalResolvesTheSame(path: bytes, hostBucket: Option<bytes>)
    ensures ResolveTarget(CanonicalUri(path), hostBucket) == ResolveTarget(path, hostBucket)
    ensures ResolvePathStyleBucket(CanonicalUri(path)) == ResolvePathStyleBucket(path)
    ensures HasObjectRoute(CanonicalUri(path), hostBucket.Some?) == HasObjectRoute(path, hostBucket.Some?)
  {
    hide CanonicalUri, ReadBucket, ReadKey;
    var p := StripSlash(path);
    StripSlashCommutes(path);
    CanonicalUriSplits(p);
    CanonicalUriOfNothing(p);
    ReadsTheSame(p);
    match SplitOnce(p, SLASH)
    case None =>
    case Some((a, b)) =>
      ReadsTheSame(a);
      ReadsTheSame(b);
      CanonicalUriOfNothing(a);
      CanonicalUriOfNothing(b);
  }

  /** Paths that sign alike address the same bucket and key, or fail alike. */
  lemma SameCanonicalUriSameTarget(p: bytes, q: bytes, hostBucket: Option<bytes>)
    requires CanonicalUri(p) == CanonicalUri(q)
    ensures ResolveTarget(p, hostBucket) == ResolveTarget(q, hostBucket)
    ensures ResolvePathStyleBucket(p) == ResolvePathStyleBucket(q)
    ensures HasObjectRoute(p, hostBucket.Some?) == HasObjectRoute(q, hostBucket.Some?)
  {
    CanonicalResolvesTheSame(p, hostBucket);
    CanonicalResolvesTheSame(q, hostBucket);
  }
}
