/**
  The multipart store (src/storage/multipart.rs), one operation at a time. Sessions are
  kept in memory and in a session file; each part is a file. Any publish or persist
  step may fail, as a fault given with the call says; rollback steps succeed.
*/
module Multipart {
  import opened Bytes
  import opened Checksums
  import opened FileSystem
  import opened ObjectStore
  import opened Staging
  import opened PutObject

  datatype UploadState = Open | Completing | Completed | Aborted

  datatype PartMetadata = PartMetadata(size: nat, etag: bytes, md5: bytes, checksums: map<bytes, bytes>)

  datatype Session = Session(
    bucket: bytes, key: bytes, initiated: int, state: UploadState, described: bytes, parts: map<nat, PartMetadata>)

  /** The directory of one upload: session file, part files, and temporaries. */
  datatype UploadDir = UploadDir(session: Option<Session>, parts: map<nat, bytes>, temps: map<nat, bytes>)

  /** A part's metadata is that of its bytes. */
  predicate PartDescribes(lib: Library, part: PartMetadata, data: bytes) {
    part.size == |data| && part.md5 == lib.digest(Md5, data)
  }

  /** An open session, its session file (but for the state in it) and its part files agree. */
  ghost predicate Sound(lib: Library, s: Session, dir: UploadDir) {
    && dir.session.Some?
    && dir.session.value == s.(state := dir.session.value.state)
    && dir.parts.Keys == s.parts.Keys
    && forall n :: n in s.parts ==> PartDescribes(lib, s.parts[n], dir.parts[n])
  }

  // ---------------------------------------------------------- completion requests

  /** A requested part: number and the ETag the client believes it has. */
  datatype CompletedPart = CompletedPart(number: nat, etag: bytes)

  /** `validate_ascending_parts`: neighbours ascend. */
  predicate Ascending(req: seq<CompletedPart>) {
    forall i :: 0 <= i < |req| - 1 ==> req[i].number < req[i + 1].number
  }

  /** Checking neighbours is enough: an accepted list is in order and names no part twice. */
  lemma {:induction false} AscendingIsSorted(req: seq<CompletedPart>, i: nat, j: nat)
    requires Ascending(req) && i < j < |req|
    ensures req[i].number < req[j].number
    decreases j - i
  {
    if i + 1 < j { AscendingIsSorted(req, i + 1, j); }
  }

  datatype Limits = Limits(minNonFinalPartSize: nat, maxObjectSize: u64)

  /** Every requested part exists with the given ETag, and only the last may be small. */
  predicate Requestable(parts: map<nat, PartMetadata>, req: seq<CompletedPart>, limits: Limits) {
    forall i :: 0 <= i < |req| ==>
      && req[i].number in parts
      && parts[req[i].number].etag == req[i].etag
      && (i + 1 < |req| ==> parts[req[i].number].size >= limits.minNonFinalPartSize)
  }

  predicate Present<T>(m: map<nat, T>, req: seq<CompletedPart>) {
    forall i :: 0 <= i < |req| ==> req[i].number in m
  }

  /** The requested parts one after the other. */
  function Assembled(files: map<nat, bytes>, req: seq<CompletedPart>): bytes
    requires Present(files, req)
  {
    if req == [] then [] else Assembled(files, req[..|req| - 1]) + files[req[|req| - 1].number]
  }

  function Md5s(parts: map<nat, PartMetadata>, req: seq<CompletedPart>): bytes
    requires Present(parts, req)
  {
    if req == [] then [] else Md5s(parts, req[..|req| - 1]) + parts[req[|req| - 1].number].md5
  }

  function TotalSize(parts: map<nat, PartMetadata>, req: seq<CompletedPart>): nat
    requires Present(parts, req)
  {
    if req == [] then 0 else TotalSize(parts, req[..|req| - 1]) + parts[req[|req| - 1].number].size
  }

  /** Sizes add up: the recorded total is the length of the assembled bytes. */
  lemma {:induction false} SizesAddUp(lib: Library, s: Session, dir: UploadDir, req: seq<CompletedPart>)
    requires Sound(lib, s, dir) && Present(s.parts, req)
    ensures Present(dir.parts, req) && TotalSize(s.parts, req) == |Assembled(dir.parts, req)|
    decreases |req|
  {
    if req != [] { SizesAddUp(lib, s, dir, req[..|req| - 1]); }
  }

  // ---------------------------------------------------------- completion checksums

  /** Digests enabled for exactly the checksums the client asked for. */
  class CompleteChecksumState {
    var fed: map<Algorithm, bytes>

    constructor (request: ChecksumRequest)
      ensures fed.Keys == request.expected.Keys && forall a :: a in fed ==> fed[a] == []
    {
      fed := map a | a in request.expected :: [];
    }

    method Update(chunk: bytes)
      modifies this
      ensures fed.Keys == old(fed.Keys)
      ensures forall a :: a in fed ==> fed[a] == old(fed)[a] + chunk
    {
      fed := map a | a in fed :: fed[a] + chunk;
    }

    function Finalized(lib: Library): map<Algorithm, bytes>
      reads this
    {
      map a: Algorithm | true :: if a in fed then lib.digest(a, fed[a]) else DefaultDigest(a)
    }
  }

  /** One part file through the copy buffer, with reads as short as they come. */
  method CopyPart(disk: Disk, file: bytes, bufferSize: BufferSize, out: bytes, state: CompleteChecksumState)
    returns (ok: bool, copied: bytes)
    requires forall a :: a in state.fed ==> state.fed[a] == out
    modifies state, disk`ticks
    ensures old(disk.ticks) <= disk.ticks && (ok <==> disk.Quiet(old(disk.ticks)))
    ensures ok ==> copied == out + file
    ensures state.fed.Keys == old(state.fed.Keys)
    ensures ok ==> forall a :: a in state.fed ==> state.fed[a] == copied
  {
    copied := out;
    var position := 0;
    var atEnd := false;
    while !atEnd
      invariant old(disk.ticks) <= disk.ticks && disk.Quiet(old(disk.ticks))
      invariant atEnd ==> position == |file|
      invariant position <= |file| && copied == out + file[..position]
      invariant state.fed.Keys == old(state.fed.Keys)
      invariant forall a :: a in state.fed ==> state.fed[a] == copied
      decreases !atEnd, |file| - position
    {
      ok := disk.Access();
      if !ok { return; }
      var read := ReadLength(bufferSize, |file| - position);
      if read == 0 {
        atEnd := true;
      } else {
        var chunk := file[position..position + read];
        ok := disk.Access();
        if !ok { return; }
        copied := copied + chunk;
        state.Update(chunk);
        position := position + read;
        assert file[..position] == file[..position - read] + chunk;
      }
    }
    assert file[..position] == file;
    ok := true;
  }

  datatype CompleteError =
    | NoSuchUpload | InvalidPart | EntityTooSmall | IoFailure | EntityTooLarge | ChecksumMismatch
    | SizeSumOverflow  // the sum of part sizes does not fit u64
    | NotMeasured(why: MeasureError) | ObjectCommitFailed

  /** The checks on the requested list, in the order the source makes them. */
  method ValidateParts(parts: map<nat, PartMetadata>, req: seq<CompletedPart>, limits: Limits)
    returns (r: Option<CompleteError>)
    ensures r.None? <==> Requestable(parts, req, limits)
    ensures r.Some? ==> r.value.InvalidPart? || r.value.EntityTooSmall?
  {
    for i := 0 to |req|
      invariant forall k :: 0 <= k < i ==>
                  && req[k].number in parts && parts[req[k].number].etag == req[k].etag
                  && (k + 1 < |req| ==> parts[req[k].number].size >= limits.minNonFinalPartSize)
    {
      if req[i].number !in parts { return Some(InvalidPart); }
      var part := parts[req[i].number];
      if part.etag != req[i].etag { return Some(InvalidPart); }
      if i + 1 < |req| && part.size < limits.minNonFinalPartSize { return Some(EntityTooSmall); }
    }
    r := None;
  }

  datatype Assembly = Assembly(data: bytes, md5s: bytes, total: nat)

  lemma {:induction false} PrefixIsNoLarger(parts: map<nat, PartMetadata>, req: seq<CompletedPart>, i: nat)
    requires i <= |req| && Present(parts, req)
    ensures TotalSize(parts, req[..i]) <= TotalSize(parts, req)
    decreases |req|
  {
    if i < |req| {
      assert req[..|req| - 1][..i] == req[..i];
      PrefixIsNoLarger(parts, req[..|req| - 1], i);
    } else {
      assert req[..i] == req;
    }
  }

  lemma NoParts(files: map<nat, bytes>, parts: map<nat, PartMetadata>, req: seq<CompletedPart>)
    ensures Assembled(files, req[..0]) == [] && Md5s(parts, req[..0]) == [] && TotalSize(parts, req[..0]) == 0
  {}

  lemma OneMorePart(files: map<nat, bytes>, parts: map<nat, PartMetadata>, req: seq<CompletedPart>, i: nat)
    requires i < |req| && Present(parts, req) && Present(files, req)
    ensures Assembled(files, req[..i + 1]) == Assembled(files, req[..i]) + files[req[i].number]
    ensures Md5s(parts, req[..i + 1]) == Md5s(parts, req[..i]) + parts[req[i].number].md5
    ensures TotalSize(parts, req[..i + 1]) == TotalSize(parts, req[..i]) + parts[req[i].number].size
  {
    assert req[..i + 1][..i] == req[..i] && req[..i + 1][i] == req[i];
  }

  /** Concatenates the parts, chaining their MD5s and watching the size. */
  method AssembleParts(
      disk: Disk, files: map<nat, bytes>, parts: map<nat, PartMetadata>, req: seq<CompletedPart>, max: u64,
      bufferSize: BufferSize, state: CompleteChecksumState)
    returns (r: Result<Assembly, CompleteError>)
    requires Present(parts, req) && Present(files, req)
    requires forall a :: a in state.fed ==> state.fed[a] == []
    modifies state, disk`ticks
    ensures old(disk.ticks) <= disk.ticks
    ensures r.Err? && disk.Quiet(old(disk.ticks)) ==> req != [] && TotalSize(parts, req) > max
    ensures state.fed.Keys == old(state.fed.Keys)
    ensures r.Ok? ==> r.value == Assembly(Assembled(files, req), Md5s(parts, req), TotalSize(parts, req))
    ensures r.Ok? ==> req == [] || r.value.total <= max
    ensures r.Ok? ==> forall a :: a in state.fed ==> state.fed[a] == r.value.data
    ensures r.Err? ==> r.error.IoFailure? || r.error.EntityTooLarge? || r.error.SizeSumOverflow?
  {
    var data, md5s, total := [], [], 0;
    NoParts(files, parts, req);
    hide Assembled, Md5s, TotalSize;
    for i := 0 to |req|
      invariant data == Assembled(files, req[..i]) && md5s == Md5s(parts, req[..i]) &&
                  total == TotalSize(parts, req[..i])
      invariant i > 0 ==> total <= max
      invariant old(disk.ticks) <= disk.ticks && disk.Quiet(old(disk.ticks))
      invariant state.fed.Keys == old(state.fed.Keys)
      invariant forall a :: a in state.fed ==> state.fed[a] == data
    {
      var found := disk.Access();
      if !found { return Err(IoFailure); }
      var n := req[i].number;
      OneMorePart(files, parts, req, i);
      var ok, copied := CopyPart(disk, files[n], bufferSize, data, state);
      if !ok { return Err(IoFailure); }
      data := copied;
      md5s := md5s + parts[n].md5;
      total := total + parts[n].size;
      PrefixIsNoLarger(parts, req, i + 1);
      if total > U64_MAX { return Err(SizeSumOverflow); }
      if total > max { return Err(EntityTooLarge); }
    }
    assert req[..|req|] == req;
    r := Ok(Assembly(data, md5s, total));
  }

  // --------------------------------------------------------- the completed object

  datatype CompleteRequest = CompleteRequest(
    parts: seq<CompletedPart>, checksums: ChecksumRequest, limits: Limits,
    copyBuffer: BufferSize, summaryBuffer: BufferSize, processors: seq<Processor>)

  /** The MD5 of each requested part file, one after the other. */
  function DigestsOfParts(lib: Library, files: map<nat, bytes>, req: seq<CompletedPart>): bytes
    requires Present(files, req)
  {
    if req == [] then []
    else DigestsOfParts(lib, files, req[..|req| - 1]) + lib.digest(Md5, files[req[|req| - 1].number])
  }

  /** The MD5s recorded with the parts are those of the part files. */
  lemma {:induction false} Md5sAreOfTheFiles(lib: Library, s: Session, dir: UploadDir, req: seq<CompletedPart>)
    requires Sound(lib, s, dir) && Present(s.parts, req)
    ensures Present(dir.parts, req) && Md5s(s.parts, req) == DigestsOfParts(lib, dir.parts, req)
    decreases |req|
  {
    if req != [] { Md5sAreOfTheFiles(lib, s, dir, req[..|req| - 1]); }
  }

  /** `checksum_values_for_digests`. */
  function RecomputedFor(lib: Library, request: ChecksumRequest, digests: map<Algorithm, bytes>): map<bytes, bytes>
    requires forall a :: a in digests
  {
    map name | name in (set a | a in CHECKSUM_NAMES :: HeaderName(a))
               && AlgorithmOf(name).Some? && AlgorithmOf(name).value in request.expected
      :: lib.encode64(digests[AlgorithmOf(name).value])
  }

  /** The requested parts, in order, pass every check that a completion makes. */
  ghost predicate Completable(lib: Library, s: Session, files: map<nat, bytes>, c: CompleteRequest) {
    && Requestable(s.parts, c.parts, c.limits)
    && Present(s.parts, c.parts) && Present(files, c.parts)
    && (c.parts != [] ==> TotalSize(s.parts, c.parts) <= c.limits.maxObjectSize)
    && ChecksumsHold(lib, c.checksums, Assembled(files, c.parts))
    && Publishable(c.processors, Assembled(files, c.parts), c.limits.maxObjectSize)
  }

  /** Every checksum the client stated is that of `data`. */
  ghost predicate ChecksumsHold(lib: Library, request: ChecksumRequest, data: bytes) {
    forall a :: a in request.expected ==> request.expected[a] == lib.digest(a, data)
  }

  /** What a completion of `files` must publish. */
  ghost predicate CompletedObject(
      lib: Library, s: Session, files: map<nat, bytes>, c: CompleteRequest, m: ObjectMetadata, final: bytes)
  {
    && Completable(lib, s, files, c)
    && Present(s.parts, c.parts) && Present(files, c.parts)
    && var data := Assembled(files, c.parts);
       && Fold(c.processors, data) == Some(final)
       && m.bucket == s.bucket && m.key == s.key && m.described == s.described
       && m.size == SaturatingAdd(0, |final|) <= c.limits.maxObjectSize
       && m.etag == (if c.processors == []
                     then ETagOfParts(lib.digest(Md5, Md5s(s.parts, c.parts)), |c.parts|)
                     else ETagOfMd5(lib.digest(Md5, final)))
       && m.checksums == (if c.processors == [] then c.checksums.echo
                          else RecomputedFor(lib, c.checksums, DigestsOf(lib, final)))
  }

  /** The completion's checksum request was read from headers `h` and trailers `t`. */
  ghost predicate ReadFrom(lib: Library, request: ChecksumRequest, h: Headers, t: map<bytes, bytes>) {
    && request.echo == EchoValues(h, t)
    && (forall a :: a in request.expected <==> Supplied(h, t, a).Some?)
    && (forall a :: a in request.expected ==> lib.base64(Supplied(h, t, a).value) == Some(request.expected[a]))
  }

  lemma RecomputedForDescribes(lib: Library, request: ChecksumRequest, data: bytes)
    requires LawfulBase64(lib)
    ensures ChecksumsDescribe(lib, RecomputedFor(lib, request, DigestsOf(lib, data)), data)
  {
    hide HeaderName, AlgorithmOf;
    forall a | a in CHECKSUM_NAMES ensures AlgorithmOf(HeaderName(a)) == Some(a) { AlgorithmOfItsName(a); }
  }

  lemma RecomputedForRecords(
      lib: Library, request: ChecksumRequest, data: bytes, h: Headers, t: map<bytes, bytes>)
    requires ReadFrom(lib, request, h, t)
    ensures RecordsWhatWasSupplied(RecomputedFor(lib, request, DigestsOf(lib, data)), h, t)
  {
    hide HeaderName, AlgorithmOf, Supplied;
    forall a | a in CHECKSUM_NAMES ensures AlgorithmOf(HeaderName(a)) == Some(a) { AlgorithmOfItsName(a); }
  }

  /**
    The metadata of a completed object is true of its bytes: checksums always, the plain
    ETag once processors have run; otherwise the size is the sum of the part sizes and
    the ETag is built from the MD5s of the part files.
  */
  lemma CompletedDescribes(
      lib: Library, s: Session, dir: UploadDir, c: CompleteRequest, m: ObjectMetadata, final: bytes,
      h: Headers, t: map<bytes, bytes>)
    requires LawfulBase64(lib) && Sound(lib, s, dir) && ReadFrom(lib, c.checksums, h, t)
    requires CompletedObject(lib, s, dir.parts, c, m, final)
    ensures ChecksumsDescribe(lib, m.checksums, final) && RecordsWhatWasSupplied(m.checksums, h, t)
    ensures c.processors != [] ==> Describes(lib, m, final)
    ensures c.processors == [] ==>
              && final == Assembled(dir.parts, c.parts)
              && m.size == SaturatingAdd(0, TotalSize(s.parts, c.parts))
              && m.etag == ETagOfParts(lib.digest(Md5, DigestsOfParts(lib, dir.parts, c.parts)), |c.parts|)
  {
    hide Sound, Requestable, ChecksumsDescribe, RecomputedFor, EchoValues, Supplied, ETagOfParts, ETagOfMd5;
    SizesAddUp(lib, s, dir, c.parts);
    Md5sAreOfTheFiles(lib, s, dir, c.parts);
    hide RecordsWhatWasSupplied;
    if c.processors == [] {
      EchoDescribes(lib, h, t, final);
      EchoRecords(h, t);
    } else {
      RecomputedForDescribes(lib, c.checksums, final);
      RecomputedForRecords(lib, c.checksums, final, h, t);
    }
  }

  /** Assembly of validated parts, up to the checksum comparison. */
  method Assemble(disk: Disk, lib: Library, s: Session, files: map<nat, bytes>, c: CompleteRequest)
    returns (r: Result<Assembly, CompleteError>)
    requires Present(s.parts, c.parts) && Present(files, c.parts)
    modifies disk`ticks
    ensures old(disk.ticks) <= disk.ticks
    ensures r.Err? && disk.Quiet(old(disk.ticks)) ==>
              || (c.parts != [] && TotalSize(s.parts, c.parts) > c.limits.maxObjectSize)
              || !ChecksumsHold(lib, c.checksums, Assembled(files, c.parts))
    ensures r.Ok? ==>
              r.value == Assembly(Assembled(files, c.parts), Md5s(s.parts, c.parts), TotalSize(s.parts, c.parts))
    ensures r.Ok? ==> c.parts == [] || r.value.total <= c.limits.maxObjectSize
    ensures r.Ok? ==> ChecksumsHold(lib, c.checksums, r.value.data)
    ensures r.Err? ==> !r.error.NoSuchUpload? && !r.error.ObjectCommitFailed?
  {
    var state := new CompleteChecksumState(c.checksums);
    r := AssembleParts(disk, files, s.parts, c.parts, c.limits.maxObjectSize, c.copyBuffer, state);
    if r.Err? { return; }
    forall a | a in c.checksums.expected ensures state.Finalized(lib)[a] == lib.digest(a, r.value.data) {
      assert a in state.fed;
    }
    if !Validates(c.checksums, state.Finalized(lib)) { return Err(ChecksumMismatch); }
  }

  /** Everything up to the commit: the final bytes are staged and their metadata is known. */
  method BuildObject(
      disk: Disk, lib: Library, s: Session, files: map<nat, bytes>, c: CompleteRequest, oid: nat, rid: nat)
    returns (r: Result<ObjectMetadata, CompleteError>, final: bytes)
    requires files.Keys == s.parts.Keys
    requires NoTemps(disk.files, oid) && ReplaceFile(rid) !in disk.files
    modifies disk
    ensures old(disk.ticks) <= disk.ticks
    ensures r.Err? && disk.Quiet(old(disk.ticks)) ==> !Completable(lib, s, files, c)
    ensures forall q :: q != TempFile(oid, Staged) && q != ReplaceFile(rid) ==>
              Get(disk.files, q) == Get(old(disk.files), q)
    ensures r.Ok? ==> CompletedObject(lib, s, files, c, r.value, final)
    ensures r.Ok? ==> Get(disk.files, TempFile(oid, Staged)) == Some(Raw(final))
    ensures r.Err? ==> !r.error.NoSuchUpload? && !r.error.ObjectCommitFailed?
  {
    hide Fold, Publishable, ChecksumsHold, RecomputedFor, ETagOfParts, ETagOfMd5, Assembled, Md5s, TotalSize;
    final := [];
    var bad := ValidateParts(s.parts, c.parts, c.limits);
    if bad.Some? { return Err(bad.value), []; }
    var created := disk.Write(TempFile(oid, Staged), Raw([]));
    if created != Done { return Err(IoFailure), []; }
    var assembly := Assemble(disk, lib, s, files, c);
    hide Requestable, Present;
    if assembly.Err? {
      var _ := disk.RemoveFileIfExists(TempFile(oid, Staged));
      return Err(assembly.error), [];
    }
    var data := assembly.value.data;
    var flushed := disk.Write(TempFile(oid, Staged), Raw(data));
    if flushed != Done {
      var _ := disk.RemoveFileIfExists(TempFile(oid, Staged));
      return Err(IoFailure), [];
    }
    var measured;
    measured, final := ProcessAndMeasure(
      disk, lib, c.processors, c.limits.maxObjectSize, c.summaryBuffer, oid, rid, data);
    if measured.Err? { return Err(CompleteError.NotMeasured(measured.error)), []; }
    var digests := measured.value.digests;
    var etag := if c.processors == [] then ETagOfParts(lib.digest(Md5, assembly.value.md5s), |c.parts|)
                else ETagOfMd5(digests[Md5]);
    var checksums := if c.processors == [] then c.checksums.echo else RecomputedFor(lib, c.checksums, digests);
    r := Ok(ObjectMetadata(s.bucket, s.key, measured.value.size, etag, checksums, s.described));
  }
}
