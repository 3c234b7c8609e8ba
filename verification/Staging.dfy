/**
  Between receiving bytes and publishing them: upload processors
  (src/middleware.rs) and the re-read that measures what is published
  (src/body/upload.rs).
*/
module Staging {
  import opened Bytes
  import opened Checksums
  import opened FileSystem

  // ------------------------------------------------------------------- processors

  datatype Action = Keep | Replace | Reject | Fail

  /** A processor's answer to the staged bytes, and what it wrote to its replacement path. */
  datatype Verdict = Verdict(action: Action, wrote: Option<bytes>)

  type Processor = bytes -> Verdict

  function Apply(p: Processor, data: bytes): Option<bytes> {
    match p(data).action
    case Keep => Some(data)
    case Replace => p(data).wrote
    case _ => None
  }

  /** The left fold of Keep and Replace decisions; None as soon as one refuses. */
  function Fold(ps: seq<Processor>, data: bytes): Option<bytes>
    decreases |ps|
  {
    if ps == [] then Some(data)
    else match Apply(ps[0], data)
      case None => None
      case Some(next) => Fold(ps[1..], next)
  }

  /** `StagedObject::replace_with`. */
  method ReplaceWith(disk: Disk, id: nat, rid: nat) returns (ok: bool)
    modifies disk
    ensures old(disk.ticks) <= disk.ticks
    ensures ok ==> ReplaceFile(rid) in old(disk.files)
    ensures ok ==> Get(disk.files, TempFile(id, Staged)) == Get(old(disk.files), ReplaceFile(rid))
    ensures ok ==> ReplaceFile(rid) !in disk.files
    ensures !ok ==> ReplaceFile(rid) !in old(disk.files) || !disk.Quiet(old(disk.ticks))
    ensures forall p :: p != TempFile(id, Staged) && p != ReplaceFile(rid) ==>
              Get(disk.files, p) == Get(old(disk.files), p)
  {
    var found, _ := disk.Read(ReplaceFile(rid));
    if found != Done { return false; }
    ok := disk.RemoveFileIfExists(TempFile(id, Staged));
    if !ok { return; }
    var renamed := disk.Rename(ReplaceFile(rid), TempFile(id, Staged));
    ok := renamed == Done;
  }

  /** One processor; false when the staged bytes were discarded. */
  method RunProcessor(disk: Disk, id: nat, rid: nat, p: Processor, data: bytes) returns (ok: bool)
    requires Get(disk.files, TempFile(id, Staged)) == Some(Raw(data)) && ReplaceFile(rid) !in disk.files
    modifies disk
    ensures old(disk.ticks) <= disk.ticks
    ensures ok ==> Apply(p, data).Some? && ReplaceFile(rid) !in disk.files
    ensures ok ==> Get(disk.files, TempFile(id, Staged)) == Some(Raw(Apply(p, data).value))
    ensures !ok && disk.Quiet(old(disk.ticks)) ==> Apply(p, data).None? && TempFile(id, Staged) !in disk.files
    ensures forall q :: q != TempFile(id, Staged) && q != ReplaceFile(rid) ==>
              Get(disk.files, q) == Get(old(disk.files), q)
  {
    var verdict := p(data);
    if verdict.wrote.Some? { disk.files := disk.files[ReplaceFile(rid) := Raw(verdict.wrote.value)]; }
    assert forall q :: q != ReplaceFile(rid) ==> Get(disk.files, q) == Get(old(disk.files), q);
    match verdict.action {
      case Keep =>
        ok := disk.RemoveFileIfExists(ReplaceFile(rid));
        if !ok { var _ := disk.RemoveFileIfExists(TempFile(id, Staged)); }
      case Replace =>
        ok := ReplaceWith(disk, id, rid);
        if !ok { var _ := disk.RemoveFileIfExists(TempFile(id, Staged)); }
      case _ =>
        var _ := disk.RemoveFileIfExists(ReplaceFile(rid));
        var _ := disk.RemoveFileIfExists(TempFile(id, Staged));
        ok := false;
    }
  }

  /** Success leaves the fold of the processors' decisions staged; without faults it fails exactly when one refuses. */
  method ProcessStagedUpload(disk: Disk, id: nat, rid: nat, ps: seq<Processor>, data: bytes)
    returns (ok: bool, final: bytes)
    requires Get(disk.files, TempFile(id, Staged)) == Some(Raw(data)) && ReplaceFile(rid) !in disk.files
    modifies disk
    ensures old(disk.ticks) <= disk.ticks
    ensures ok ==> Fold(ps, data) == Some(final)
    ensures ok ==> Get(disk.files, TempFile(id, Staged)) == Some(Raw(final)) && ReplaceFile(rid) !in disk.files
    ensures !ok && disk.Quiet(old(disk.ticks)) ==> Fold(ps, data) == None && TempFile(id, Staged) !in disk.files
    ensures forall q :: q != TempFile(id, Staged) && q != ReplaceFile(rid) ==>
              Get(disk.files, q) == Get(old(disk.files), q)
  {
    hide Apply;
    final := data;
    assert ps[0..] == ps;
    for i := 0 to |ps|
      invariant old(disk.ticks) <= disk.ticks
      invariant Fold(ps, data) == Fold(ps[i..], final)
      invariant Get(disk.files, TempFile(id, Staged)) == Some(Raw(final)) && ReplaceFile(rid) !in disk.files
      invariant forall q :: q != TempFile(id, Staged) && q != ReplaceFile(rid) ==>
                  Get(disk.files, q) == Get(old(disk.files), q)
    {
      assert ps[i..][1..] == ps[i + 1..];
      ok := RunProcessor(disk, id, rid, ps[i], final);
      if !ok { return; }
      final := Apply(ps[i], final).value;
    }
    ok := true;
  }

  // ------------------------------------------------------------- measuring a file

  /** How much one read returns: as little as it likes, but nothing only at the end. */
  method ReadLength(bufferSize: BufferSize, left: nat) returns (read: nat)
    ensures read <= bufferSize && read <= left && (read == 0 <==> left == 0)
  {
    if left == 0 { return 0; }
    read := 1;
    while read < bufferSize && read < left
      invariant 1 <= read <= bufferSize && read <= left
    {
      if * { break; }
      read := read + 1;
    }
  }

  datatype FinalBody = FinalBody(size: nat, digests: map<Algorithm, bytes>)

  /**
    Re-reads a staged file through a buffer; whatever the buffer size and however short
    the reads, the result measures the whole file. None exactly when opening or a read fails.
  */
  method SummarizeStagedUpload(disk: Disk, lib: Library, file: bytes, bufferSize: BufferSize)
    returns (r: Option<FinalBody>)
    modifies disk`ticks
    ensures old(disk.ticks) <= disk.ticks && (r.Some? <==> disk.Quiet(old(disk.ticks)))
    ensures r.Some? ==> r.value.size == SaturatingAdd(0, |file|)
    ensures r.Some? ==> forall a :: a in r.value.digests && r.value.digests[a] == lib.digest(a, file)
  {
    var found := disk.Access();
    if !found { return None; }
    var fed: bytes := [];
    var size := 0;
    var atEnd := false;
    while !atEnd
      invariant old(disk.ticks) <= disk.ticks && disk.Quiet(old(disk.ticks))
      invariant fed <= file && size == SaturatingAdd(0, |fed|)
      invariant atEnd ==> |fed| == |file|
      decreases !atEnd, |file| - |fed|
    {
      var ok := disk.Access();
      if !ok { return None; }
      var read := ReadLength(bufferSize, |file| - |fed|);
      atEnd := read == 0;
      var chunk := file[|fed|..|fed| + read];
      size := SaturatingAdd(size, read);
      fed := fed + chunk;
    }
    assert fed == file;
    r := Some(FinalBody(size, map a: Algorithm | true :: lib.digest(a, fed)));
  }

  datatype MeasureError = ProcessorRefused | ReadFailed | OverLimit

  /** No processor refuses, and what they leave fits the limit. */
  predicate Publishable(ps: seq<Processor>, data: bytes, max: nat) {
    match Fold(ps, data)
    case None => false
    case Some(final) => SaturatingAdd(0, |final|) <= max
  }

  /** Processors, then the re-read, then the size limit; failures discard the staged file. */
  method ProcessAndMeasure(
      disk: Disk, lib: Library, ps: seq<Processor>, max: nat, bufferSize: BufferSize, id: nat, rid: nat, data: bytes)
    returns (r: Result<FinalBody, MeasureError>, final: bytes)
    requires Get(disk.files, TempFile(id, Staged)) == Some(Raw(data)) && ReplaceFile(rid) !in disk.files
    modifies disk
    ensures old(disk.ticks) <= disk.ticks
    ensures r.Ok? ==> Publishable(ps, data, max)
    ensures r.Err? && disk.Quiet(old(disk.ticks)) ==> !Publishable(ps, data, max)
    ensures forall q :: q != TempFile(id, Staged) && q != ReplaceFile(rid) ==>
              Get(disk.files, q) == Get(old(disk.files), q)
    ensures r.Ok? ==> Fold(ps, data) == Some(final) && Get(disk.files, TempFile(id, Staged)) == Some(Raw(final))
    ensures r.Ok? ==> r.value == FinalBody(SaturatingAdd(0, |final|), DigestsOf(lib, final)) && r.value.size <= max
  {
    hide Fold;
    var ok;
    ok, final := ProcessStagedUpload(disk, id, rid, ps, data);
    if !ok { return Err(ProcessorRefused), []; }
    var summary := SummarizeStagedUpload(disk, lib, final, bufferSize);
    if summary.None? || summary.value.size > max {
      var _ := disk.RemoveFileIfExists(TempFile(id, Staged));
      return Err(if summary.None? then ReadFailed else OverLimit), [];
    }
    assert summary.value.digests == DigestsOf(lib, final);
    r := Ok(summary.value);
  }

  // ------------------------------------------------------------------------- ETags

  /** A single-part ETag: the quoted hex MD5. */
  function ETagOfMd5(md5: bytes): bytes { [34] + HexEncode(md5) + [34] }

  /** A multipart ETag: hex MD5 of the part MD5s, a dash, and the part count. */
  function ETagOfParts(md5: bytes, count: nat): bytes { [34] + HexEncode(md5) + [45] + Decimal(count) + [34] }

  /** An ETag tells what it was made of: the MD5 and, of a multipart object, the number of parts. */
  lemma ETagsDetermine(x: bytes, m: nat, y: bytes, n: nat)
    ensures ETagOfMd5(x) == ETagOfMd5(y) ==> x == y
    ensures ETagOfParts(x, m) == ETagOfParts(y, n) ==> x == y && m == n
    ensures ETagOfMd5(x) != ETagOfParts(y, n)
    ensures ETagOfMd5(x)[0] == '"' as int && ETagOfMd5(x)[|ETagOfMd5(x)| - 1] == '"' as int
    ensures ETagOfParts(x, m)[0] == '"' as int && ETagOfParts(x, m)[|ETagOfParts(x, m)| - 1] == '"' as int
  {
    ETagParts(x, None);
    ETagParts(y, None);
    ETagParts(x, Some(m));
    ETagParts(y, Some(n));
    hide HexEncode, Decimal, Dashed;
    if ETagOfMd5(x) == ETagOfMd5(y) { HexIsInjective(x, y); }
    if ETagOfParts(x, m) == ETagOfParts(y, n) {
      HexIsInjective(x, y);
      DecimalIsInjective(m, n);
    }
  }

  /** The text between the quotes, taken apart at its dash. */
  function Dashed(etag: bytes): Option<(bytes, bytes)>
    requires |etag| >= 2
  {
    SplitOnce(etag[1..|etag| - 1], 45)
  }

  lemma ETagParts(x: bytes, count: Option<nat>)
    ensures |ETagOfMd5(x)| >= 2 && Dashed(ETagOfMd5(x)) == None
    ensures ETagOfMd5(x)[1..|ETagOfMd5(x)| - 1] == HexEncode(x)
    ensures count.Some? ==>
              var tag := ETagOfParts(x, count.value);
              |tag| >= 2 && Dashed(tag) == Some((HexEncode(x), Decimal(count.value)))
  {
    HexIsLower(x);
    hide HexEncode, Decimal;
    var tag := ETagOfMd5(x);
    assert tag[1..|tag| - 1] == HexEncode(x);
    if count.Some? {
      var parts := ETagOfParts(x, count.value);
      assert parts[1..|parts| - 1] == HexEncode(x) + [45] + Decimal(count.value);
      SplitOnceAt(HexEncode(x), 45, Decimal(count.value));
    }
  }

  /** `ChecksumName::from_header_name`. */
  function AlgorithmOf(name: bytes): Option<Algorithm> {
    if name == HeaderName(Crc32) then Some(Crc32)
    else if name == HeaderName(Crc32c) then Some(Crc32c)
    else if name == HeaderName(Sha1) then Some(Sha1)
    else if name == HeaderName(Sha256) then Some(Sha256)
    else if name == HeaderName(Sha512) then Some(Sha512)
    else None
  }

  /** `checksum_values_for_requested_headers`: the same names, recomputed values. */
  function Recomputed(lib: Library, requested: map<bytes, bytes>, digests: map<Algorithm, bytes>): map<bytes, bytes>
    requires forall a :: a in digests
  {
    map name | name in requested && AlgorithmOf(name).Some? :: lib.encode64(digests[AlgorithmOf(name).value])
  }

  /** Every recorded checksum is that of `data`. */
  ghost predicate ChecksumsDescribe(lib: Library, checksums: map<bytes, bytes>, data: bytes) {
    forall a :: a in CHECKSUM_NAMES && HeaderName(a) in checksums ==>
      lib.base64(checksums[HeaderName(a)]) == Some(lib.digest(a, data))
  }

  lemma AlgorithmOfItsName(a: Algorithm)
    requires a != Md5
    ensures AlgorithmOf(HeaderName(a)) == Some(a)
  {
    hide HeaderName;
    forall b | HeaderName(b) == HeaderName(a) ensures b == a { HeaderNamesDiffer(a, b); }
  }

  /** Exactly these checksums are recorded. */
  ghost predicate RecordsWhatWasSupplied(checksums: map<bytes, bytes>, h: Headers, t: map<bytes, bytes>) {
    forall a :: a in CHECKSUM_NAMES ==> (HeaderName(a) in checksums <==> Supplied(h, t, a).Some?)
  }

  lemma EchoRecords(h: Headers, t: map<bytes, bytes>)
    ensures RecordsWhatWasSupplied(EchoValues(h, t), h, t)
  {
    hide HeaderName, Supplied;
    forall a, b | HeaderName(a) == HeaderName(b) ensures a == b { HeaderNamesDiffer(a, b); }
  }

  lemma RecomputedRecords(
      lib: Library, requested: map<bytes, bytes>, digests: map<Algorithm, bytes>, h: Headers, t: map<bytes, bytes>)
    requires RecordsWhatWasSupplied(requested, h, t) && forall a :: a in digests
    ensures RecordsWhatWasSupplied(Recomputed(lib, requested, digests), h, t)
  {
    hide HeaderName, Supplied, AlgorithmOf;
    forall a | a in CHECKSUM_NAMES ensures AlgorithmOf(HeaderName(a)) == Some(a) { AlgorithmOfItsName(a); }
  }

  /** Recomputed checksums are true of the bytes they were recomputed from. */
  lemma RecomputedDescribes(lib: Library, requested: map<bytes, bytes>, digests: map<Algorithm, bytes>, data: bytes)
    requires LawfulBase64(lib)
    requires forall a :: a in digests && digests[a] == lib.digest(a, data)
    ensures ChecksumsDescribe(lib, Recomputed(lib, requested, digests), data)
  {
    hide HeaderName, AlgorithmOf;
    forall a | a in CHECKSUM_NAMES ensures AlgorithmOf(HeaderName(a)) == Some(a) { AlgorithmOfItsName(a); }
  }

  /** Echoed checksums are true of the bytes the request was checked against. */
  lemma EchoDescribes(lib: Library, h: Headers, t: map<bytes, bytes>, data: bytes)
    requires forall a :: Supplied(h, t, a).Some? ==> lib.base64(Supplied(h, t, a).value) == Some(lib.digest(a, data))
    ensures ChecksumsDescribe(lib, EchoValues(h, t), data)
  {
    hide HeaderName, Supplied;
    forall a, b | HeaderName(a) == HeaderName(b) ensures a == b { HeaderNamesDiffer(a, b); }
  }
}
