/** Validated identifiers (src/s3/types.rs) and the storage key built from them. */
module Names {
  import opened Bytes

  datatype DomainError = EmptyBucketName | InvalidBucketName | EmptyObjectKey | InvalidObjectKey

  /** `u8::is_ascii_control`. */
  predicate Control(b: byte) { b < 32 || b == 127 }

  predicate ValidBucket(s: bytes) {
    s != [] && forall i :: 0 <= i < |s| ==> s[i] != 47 && s[i] != 92 && !Control(s[i])
  }

  predicate ValidKey(s: bytes) {
    s != [] && forall i :: 0 <= i < |s| ==> !Control(s[i])
  }

  function ParseBucket(s: bytes): (r: Result<bytes, DomainError>)
    ensures r.Ok? <==> ValidBucket(s)
    ensures r.Ok? ==> r.value == s
  {
    if s == [] then Err(EmptyBucketName)
    else if exists i :: 0 <= i < |s| && (s[i] == 47 || s[i] == 92 || Control(s[i])) then Err(InvalidBucketName)
    else Ok(s)
  }

  function ParseKey(s: bytes): (r: Result<bytes, DomainError>)
    ensures r.Ok? <==> ValidKey(s)
    ensures r.Ok? ==> r.value == s
  {
    if s == [] then Err(EmptyObjectKey)
    else if exists i :: 0 <= i < |s| && Control(s[i]) then Err(InvalidObjectKey)
    else Ok(s)
  }

  /** What `object_digest` hashes: bucket, NUL, key. */
  function StorageKey(bucket: bytes, key: bytes): bytes { bucket + [0] + key }

  /** No two valid bucket and key pairs share a storage key, because neither holds a NUL. */
  lemma {:induction false} StorageKeyInjective(b1: bytes, k1: bytes, b2: bytes, k2: bytes)
    requires ValidBucket(b1) && ValidBucket(b2)
    requires StorageKey(b1, k1) == StorageKey(b2, k2)
    ensures b1 == b2 && k1 == k2
  {
    var s := StorageKey(b1, k1);
    assert s[|b1|] == 0 && s[|b2|] == 0;
    assert forall i :: 0 <= i < |b1| ==> s[i] == b1[i] != 0;
    assert forall i :: 0 <= i < |b2| ==> s[i] == b2[i] != 0;
    assert |b1| == |b2|;
    assert b1 == s[..|b1|] == b2;
    assert k1 == s[|b1| + 1..] == k2;
  }
}
