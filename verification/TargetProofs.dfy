/** What a path addresses, told from its text: everything here is about slashes, decoding and valid names. */
module TargetProofs {
  import opened Bytes
  import opened Names
  import opened Percent
  import opened Target

  /** A bucket and a key that may be stored. */
  predicate Storable(bucket: bytes, key: bytes) {
    ValidBucket(bucket) && ValidKey(key) && Utf8Valid(bucket) && Utf8Valid(key)
  }

  /** `/bucket/key`, with or without the first slash: the bucket before the next slash, the key after it. */
  lemma PathStyleTarget(leading: bool, bucket: bytes, key: bytes, t: S3Target)
    requires SLASH !in bucket && (!leading ==> bucket != [])
    ensures var path := (if leading then [SLASH] else []) + bucket + [SLASH] + key;
            ResolveTarget(path, None) == Ok(t) <==>
              t == S3Target(Decode(bucket), Decode(key), false) && Storable(Decode(bucket), Decode(key))
  {
    hide Decode, Utf8Valid, ValidBucket, ValidKey;
    var path := (if leading then [SLASH] else []) + bucket + [SLASH] + key;
    assert StripSlash(path) == bucket + [SLASH] + key;
    SplitOnceAt(bucket, SLASH, key);
  }

  /** Every path that resolves is of that form. */
  lemma ResolvedPathStyle(path: bytes, t: S3Target)
    requires ResolveTarget(path, None) == Ok(t)
    ensures exists bucket, key ::
              && StripSlash(path) == bucket + [SLASH] + key && SLASH !in bucket
              && t == S3Target(Decode(bucket), Decode(key), false) && Storable(Decode(bucket), Decode(key))
  {
    hide Decode, Utf8Valid, ValidBucket, ValidKey;
    var (bucket, key) := SplitOnce(StripSlash(path), SLASH).value;
    assert t == S3Target(Decode(bucket), Decode(key), false);
  }

  /** Behind a virtual host the bucket is the host's and the whole path is the key. */
  lemma VirtualHostTarget(leading: bool, host: bytes, key: bytes, t: S3Target)
    requires !leading ==> key == [] || key[0] != SLASH
    ensures ResolveTarget((if leading then [SLASH] else []) + key, Some(host)) == Ok(t) <==>
              t == S3Target(Decode(host), Decode(key), true) && Storable(Decode(host), Decode(key))
  {
    hide Decode, Utf8Valid, ValidBucket, ValidKey;
    assert StripSlash((if leading then [SLASH] else []) + key) == key;
  }

  lemma {:induction false} EncodedHasNoSlash(s: bytes)
    ensures SLASH !in Encode(s)
  {
    if s != [] { EncodedHasNoSlash(s[1..]); }
  }

  /** Round trip: the path a client makes of a bucket and a key addresses them. */
  lemma TargetRoundTrip(bucket: bytes, key: bytes)
    requires Storable(bucket, key)
    ensures ResolveTarget([SLASH] + Encode(bucket) + [SLASH] + Encode(key), None) == Ok(S3Target(bucket, key, false))
    ensures ResolveTarget([SLASH] + Encode(key), Some(Encode(bucket))) == Ok(S3Target(bucket, key, true))
  {
    hide Decode, Encode, Storable, ResolveTarget;
    EncodedHasNoSlash(bucket);
    DecodeOfEncode(bucket);
    DecodeOfEncode(key);
    PathStyleTarget(true, Encode(bucket), Encode(key), S3Target(bucket, key, false));
    VirtualHostTarget(true, Encode(bucket), Encode(key), S3Target(bucket, key, true));
  }

  /** Why a path-style path does not resolve: the first thing wrong with it. */
  lemma PathStyleErrors(bucket: bytes, key: bytes, e: TargetError)
    requires SLASH !in bucket
    ensures ResolveTarget([SLASH] + bucket, None) == Err(MissingKey)
    ensures ResolveTarget([SLASH] + bucket + [SLASH] + key, None) == Err(e) <==>
              var b, k := Decode(bucket), Decode(key);
              if !Utf8Valid(b) then e == InvalidPercentEncoding
              else if b == [] then e == InvalidDomain(EmptyBucketName)
              else if !ValidBucket(b) then e == InvalidDomain(InvalidBucketName)
              else if !Utf8Valid(k) then e == InvalidPercentEncoding
              else if k == [] then e == InvalidDomain(EmptyObjectKey)
              else !ValidKey(k) && e == InvalidDomain(InvalidObjectKey)
  {
    hide Decode, Utf8Valid;
    assert StripSlash([SLASH] + bucket) == bucket;
    assert StripSlash([SLASH] + bucket + [SLASH] + key) == bucket + [SLASH] + key;
    SplitOnceAt(bucket, SLASH, key);
  }

  /** A bucket path is `/bucket` or `/bucket/`; a path with a key is not one. */
  lemma BucketPath(bucket: bytes, key: bytes, b: bytes)
    requires SLASH !in bucket && bucket != [] && key != []
    ensures ResolvePathStyleBucket([SLASH] + bucket) == Ok(b) <==>
              b == Decode(bucket) && ValidBucket(b) && Utf8Valid(b)
    ensures ResolvePathStyleBucket([SLASH] + bucket + [SLASH]) == ResolvePathStyleBucket([SLASH] + bucket)
    ensures ResolvePathStyleBucket([SLASH] + bucket + [SLASH] + key) == Err(MissingKey)
    ensures ResolvePathStyleBucket([SLASH]) == ResolvePathStyleBucket([]) == Err(MissingBucket)
  {
    hide Decode, Utf8Valid, ValidBucket;
    assert StripSlash([SLASH] + bucket) == bucket;
    assert StripSlash([SLASH] + bucket + [SLASH]) == bucket + [SLASH] + [];
    assert StripSlash([SLASH] + bucket + [SLASH] + key) == bucket + [SLASH] + key;
    SplitOnceAt(bucket, SLASH, []);
    SplitOnceAt(bucket, SLASH, key);
  }

  /** An object route has a bucket part and a key part, or, behind a virtual host, any path at all. */
  lemma ObjectRoute(bucket: bytes, key: bytes)
    requires SLASH !in bucket
    ensures HasObjectRoute([SLASH] + bucket + [SLASH] + key, false) <==> bucket != [] && key != []
    ensures !HasObjectRoute([SLASH] + bucket, false)
    ensures HasObjectRoute([SLASH] + key, true) <==> key != []
  {
    assert StripSlash([SLASH] + bucket) == bucket && StripSlash([SLASH] + key) == key;
    assert StripSlash([SLASH] + bucket + [SLASH] + key) == bucket + [SLASH] + key;
    SplitOnceAt(bucket, SLASH, key);
  }
}
