/** Stage, process, measure, publish (src/handlers/put_object.rs). */
module PutObject {
  import opened Bytes
  import opened AwsChunked
  import opened ChunkSignatures
  import opened StreamingSpec
  import opened Checksums
  import opened UploadBody
  import opened FileSystem
  import opened ObjectStore
  import opened Staging

  /** Published metadata is about the published bytes. */
  ghost predicate Describes(lib: Library, m: ObjectMetadata, data: bytes) {
    && m.size == SaturatingAdd(0, |data|)
    && m.etag == ETagOfMd5(lib.digest(Md5, data))
    && ChecksumsDescribe(lib, m.checksums, data)
  }

  /** Nothing published changed; only temporaries may differ. */
  ghost predicate SamePublished(f: Files, g: Files) {
    forall p: Path :: !p.InTmp() ==> Get(f, p) == Get(g, p)
  }

  /** The body arrived whole, its checksum headers are in order, and the checksums match. */
  ghost predicate AcceptableBody(
      lib: Library, env: Env, h: Headers, request: Body, signing: Option<Verifier>, data: bytes, t: Trailers)
  {
    BodyArrived(env, h, request, signing, data, t) && RequestAcceptable(lib, h, t) && Genuine(lib, h, t, data)
  }

  /** A request has one body. */
  lemma OneBody(
      lib: Library, env: Env, h: Headers, request: Body, signing: Option<Verifier>, data: bytes, t: Trailers)
    requires BodyArrived(env, h, request, signing, data, t)
    ensures forall d, u :: AcceptableBody(lib, env, h, request, signing, d, u) ==> d == data && u == t
  {}

  datatype PutError =
    | StagingFailed | BodyRejected(cause: UploadError) | NotMeasured(why: MeasureError) | CommitFailed

  datatype PutTuning = PutTuning(maxObjectSize: u64, bufferSize: BufferSize)

  /** The request is received into the temporary file. */
  method Stage(
      disk: Disk, lib: Library, env: Env, h: Headers, request: Body, signing: Option<Verifier>, id: nat)
    returns (r: Result<UploadedBody, PutError>, data: bytes, ghost trailers: Trailers)
    modifies disk
    ensures old(disk.ticks) <= disk.ticks
    ensures r.Err? && disk.Quiet(old(disk.ticks)) ==>
              forall body, t :: !AcceptableBody(lib, env, h, request, signing, body, t)
    ensures forall p :: p != TempFile(id, Staged) ==> Get(disk.files, p) == Get(old(disk.files), p)
    ensures r.Ok? ==> Get(disk.files, TempFile(id, Staged)) == Some(Raw(data))
    ensures r.Ok? ==> BodyArrived(env, h, request, signing, data, trailers)
    ensures r.Ok? ==> SignedAsAnnounced(env, h, request, signing, data, trailers)
    ensures r.Ok? ==> Genuine(lib, h, trailers, data) && r.value.checksums == EchoValues(h, trailers)
    ensures r.Err? ==> r.error != CommitFailed
  {
    hide Genuine, EchoValues, BodyArrived, RequestAcceptable, SignedAsAnnounced;
    data, trailers := [], map[];
    var created := disk.Write(TempFile(id, Staged), Raw([]));
    if created != IoResult.Done { return Err(StagingFailed), [], map[]; }
    var start := disk.ticks;
    var partial: nat -> nat := *;
    var w := new Writer((i: nat) => disk.fails(start + i), partial);
    var body;
    body, trailers := WriteUploadBody(lib, env, h, request, w, signing);
    disk.Spend(w.writes);
    QuietIsIntact(disk, start, w);
    if body.Err? {
      var _ := disk.RemoveFileIfExists(TempFile(id, Staged));
      return Err(BodyRejected(body.error)), [], map[];
    }
    var flushed := disk.Write(TempFile(id, Staged), Raw(w.written));
    if flushed != IoResult.Done {
      var _ := disk.RemoveFileIfExists(TempFile(id, Staged));
      return Err(StagingFailed), [], map[];
    }
    data := w.written;
    r := Ok(body.value);
  }

  lemma QuietIsIntact(disk: Disk, start: nat, w: Writer)
    requires disk.ticks == start + w.writes && forall i :: 0 <= i < w.writes ==> w.fails(i) == disk.fails(start + i)
    ensures disk.Quiet(start) ==> w.Intact()
  {}

  /** Processing and measuring; the metadata to publish, with the final bytes staged. */
  method Finalize(
      disk: Disk, lib: Library, ps: seq<Processor>, tuning: PutTuning, id: nat, rid: nat, data: bytes,
      echoed: map<bytes, bytes>, bucket: bytes, key: bytes, described: bytes)
    returns (r: Result<ObjectMetadata, PutError>, final: bytes)
    requires Get(disk.files, TempFile(id, Staged)) == Some(Raw(data)) && ReplaceFile(rid) !in disk.files
    modifies disk
    ensures old(disk.ticks) <= disk.ticks
    ensures r.Err? && disk.Quiet(old(disk.ticks)) ==> !Publishable(ps, data, tuning.maxObjectSize)
    ensures forall q :: q != TempFile(id, Staged) && q != ReplaceFile(rid) ==>
              Get(disk.files, q) == Get(old(disk.files), q)
    ensures r.Ok? ==> Get(disk.files, TempFile(id, Staged)) == Some(Raw(final)) && Fold(ps, data) == Some(final)
    ensures r.Ok? ==> SaturatingAdd(0, |final|) <= tuning.maxObjectSize
    ensures r.Ok? ==> r.value == ObjectMetadata(
              bucket, key, SaturatingAdd(0, |final|), ETagOfMd5(lib.digest(Md5, final)),
              if ps == [] then echoed else Recomputed(lib, echoed, DigestsOf(lib, final)), described)
    ensures r.Err? ==> r.error != CommitFailed
  {
    hide Fold, Publishable, Recomputed;
    var measured;
    measured, final := ProcessAndMeasure(disk, lib, ps, tuning.maxObjectSize, tuning.bufferSize, id, rid, data);
    if measured.Err? { return Err(NotMeasured(measured.error)), []; }
    var digests := measured.value.digests;
    var checksums := if ps == [] then echoed else Recomputed(lib, echoed, digests);
    r := Ok(ObjectMetadata(bucket, key, measured.value.size, ETagOfMd5(digests[Md5]), checksums, described));
  }

  /** The object a put sets out to publish: the fold of the processors over an acceptable body, described. */
  ghost predicate PutResult(
      lib: Library, env: Env, h: Headers, request: Body, signing: Option<Verifier>, ps: seq<Processor>, max: nat,
      body: bytes, t: Trailers, m: ObjectMetadata, final: bytes)
  {
    && BodyArrived(env, h, request, signing, body, t) && Genuine(lib, h, t, body)
    && SignedAsAnnounced(env, h, request, signing, body, t)
    && Fold(ps, body) == Some(final)
    && Describes(lib, m, final)
    && RecordsWhatWasSupplied(m.checksums, h, t)
    && m.size <= max
  }

  /**
    A put sets out to publish the fold of the processors over a body that arrived whole
    and matched its checksums, with size, ETag and checksums of those bytes. Success
    shows exactly that; a failed commit shows that or what was there, if the key is new
    or one operation failed; anything refused before the commit publishes nothing. While
    the disk works, an acceptable body that fits after processing is published.
  */
  method Put(
      store: FileObjectStore, lib: Library, env: Env, h: Headers, request: Body, signing: Option<Verifier>,
      ps: seq<Processor>, tuning: PutTuning, id: nat, rid: nat, bucket: bytes, key: bytes, described: bytes)
    returns (r: Result<ObjectMetadata, PutError>, ghost attempt: Option<ObjectMetadata>,
      ghost body: bytes, ghost trailers: Trailers, ghost final: bytes)
    requires LawfulBase64(lib)
    requires NoTemps(store.disk.files, id) && ReplaceFile(rid) !in store.disk.files
    modifies store.disk
    ensures old(store.disk.ticks) <= store.disk.ticks
    ensures attempt.Some? <==> r.Ok? || r == Err(CommitFailed)
    ensures attempt.Some? ==>
              && attempt.value.bucket == bucket && attempt.value.key == key && attempt.value.described == described
              && PutResult(
                   lib, env, h, request, signing, ps, tuning.maxObjectSize, body, trailers, attempt.value, final)
    ensures r.Ok? ==> attempt == Some(r.value)
    ensures r.Ok? ==> Visible(store.disk.files, store.Digest(bucket, key)) == Some((r.value, Raw(final)))
    ensures r == Err(CommitFailed)
            && (MetaFile(store.Digest(bucket, key)) !in old(store.disk.files)
                || OneFault(store.disk.fails, old(store.disk.ticks), store.disk.ticks)) ==>
              OldOrNew(old(store.disk.files), store.disk.files, store.Digest(bucket, key), attempt.value, Raw(final))
    ensures r.Err? && r.error != CommitFailed ==> SamePublished(store.disk.files, old(store.disk.files))
    ensures r.Err? && store.disk.Quiet(old(store.disk.ticks)) ==>
              forall data, t :: AcceptableBody(lib, env, h, request, signing, data, t) ==>
                !Publishable(ps, data, tuning.maxObjectSize)
    ensures forall e :: e != store.Digest(bucket, key) ==>
              Visible(store.disk.files, e) == Visible(old(store.disk.files), e)
  {
    hide Genuine, EchoValues, BodyArrived, Fold, Publishable, AcceptableBody, RequestAcceptable, ChecksumsDescribe;
    hide SignedAsAnnounced, Recomputed, DigestsOf, LawfulBase64, CrashedAt, PairAfterCrash, ETagOfMd5, NoTemps;
    hide RecordsWhatWasSupplied;
    ghost var was := store.disk.files;
    attempt, body, trailers, final := None, [], map[], [];
    NoReplacement(was, id);
    var staged, data;
    staged, data, trailers := Stage(store.disk, lib, env, h, request, signing, id);
    if staged.Err? { return Err(staged.error), None, [], map[], []; }
    body := data;
    assert Get(store.disk.files, ReplaceFile(rid)) == Get(was, ReplaceFile(rid));
    var m, measured := Finalize(
      store.disk, lib, ps, tuning, id, rid, data, staged.value.checksums, bucket, key, described);
    OneBody(lib, env, h, request, signing, body, trailers);
    if m.Err? { return Err(m.error), None, [], map[], []; }
    final := measured;
    RecordedChecksumsDescribe(lib, h, trailers, ps, body, final, staged.value.checksums);
    attempt := Some(m.value);
    hide PutResult;
    var ok := PublishStaged(store, id, m.value, was, final);
    r := if ok then Ok(m.value) else Err(CommitFailed);
  }

  /** The commit that ends a put or a completion; `was` is what was published when the request began. */
  method PublishStaged(store: FileObjectStore, id: nat, m: ObjectMetadata, ghost was: Files, ghost final: bytes)
    returns (ok: bool)
    requires SamePublished(store.disk.files, was)
    requires Get(store.disk.files, TempFile(id, Staged)) == Some(Raw(final))
    requires forall kind :: kind != Staged ==> TempFile(id, kind) !in store.disk.files
    modifies store.disk
    ensures old(store.disk.ticks) <= store.disk.ticks && (!ok ==> !store.disk.Quiet(old(store.disk.ticks)))
    ensures ok ==> Visible(store.disk.files, store.Digest(m.bucket, m.key)) == Some((m, Raw(final)))
    ensures MetaFile(store.Digest(m.bucket, m.key)) !in was
            || OneFault(store.disk.fails, old(store.disk.ticks), store.disk.ticks) ==>
              OldOrNew(was, store.disk.files, store.Digest(m.bucket, m.key), m, Raw(final))
    ensures forall e :: e != store.Digest(m.bucket, m.key) ==> Visible(store.disk.files, e) == Visible(was, e)
  {
    hide CrashedAt, PairAfterCrash, NoTemps, OneFault;
    ghost var d, before, start := store.Digest(m.bucket, m.key), store.disk.files, store.disk.ticks;
    ok := store.CommitStagedObject(id, m);
    ghost var now := store.disk.files;
    SameVisible(was, before, now, d, id);
    assert Get(before, MetaFile(d)) == Get(was, MetaFile(d)) && Get(before, DataFile(d)) == Get(was, DataFile(d));
    CommitShowsOldOrNew(before, now, d, id, m, store.disk.fails, start, store.disk.ticks);
  }

  lemma NoReplacement(files: Files, id: nat)
    requires NoTemps(files, id)
    ensures forall kind :: Get(files, TempFile(id, kind)) == None
  {}

  lemma SameVisible(was: Files, before: Files, now: Files, d: bytes, id: nat)
    requires SamePublished(before, was) && SameElsewhere(now, before, d, id)
    ensures forall e :: e != d ==> Visible(now, e) == Visible(was, e)
  {
    forall e | e != d ensures Visible(now, e) == Visible(was, e) {
      assert Get(now, MetaFile(e)) == Get(before, MetaFile(e)) == Get(was, MetaFile(e));
      assert Get(now, DataFile(e)) == Get(before, DataFile(e)) == Get(was, DataFile(e));
    }
  }

  /** Echoed without processors, recomputed with them: either way they describe the final bytes. */
  lemma RecordedChecksumsDescribe(
      lib: Library, h: Headers, t: Trailers, ps: seq<Processor>, body: bytes, final: bytes, echoed: map<bytes, bytes>)
    requires LawfulBase64(lib) && Genuine(lib, h, t, body) && Fold(ps, body) == Some(final)
    requires echoed == EchoValues(h, t)
    ensures var checksums := if ps == [] then echoed else Recomputed(lib, echoed, DigestsOf(lib, final));
            ChecksumsDescribe(lib, checksums, final) && RecordsWhatWasSupplied(checksums, h, t)
  {
    hide ChecksumsDescribe, RecordsWhatWasSupplied, Recomputed, EchoValues, Supplied;
    EchoRecords(h, t);
    if ps == [] {
      EchoDescribes(lib, h, t, final);
    } else {
      RecomputedRecords(lib, echoed, DigestsOf(lib, final), h, t);
      RecomputedDescribes(lib, echoed, DigestsOf(lib, final), final);
    }
  }
}
