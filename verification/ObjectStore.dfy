/**
  The two-file object store (src/storage/object.rs): bytes and metadata published by
  rename, with hard-link backups, rollback, and orphan cleanup at startup.
*/
module ObjectStore {
  import opened Bytes
  import opened Names
  import opened FileSystem

  /** What head and open show for a digest: both files, or nothing. */
  function Visible(files: Files, d: bytes): Option<(ObjectMetadata, Content)> {
    match (Get(files, MetaFile(d)), Get(files, DataFile(d)))
    case (Some(Json(m)), Some(data)) => Some((m, data))
    case _ => None
  }

  datatype StoreResult<+T> = Good(value: T) | IoFailed | Unparsable

  /** The two published names of a digest, whatever they hold. */
  function Pair(files: Files, d: bytes): (Option<Content>, Option<Content>) {
    (Get(files, MetaFile(d)), Get(files, DataFile(d)))
  }

  /** Nothing but the published files of `d` and the temporaries of `id` differs. */
  ghost predicate SameElsewhere(f: Files, g: Files, d: bytes, id: nat) {
    forall p :: p != DataFile(d) && p != MetaFile(d) && !(p.TempFile? && p.id == id) ==> Get(f, p) == Get(g, p)
  }

  predicate NoTemps(files: Files, id: nat) {
    forall kind :: TempFile(id, kind) !in files
  }

  method DrawTempId(files: Files) returns (id: nat)
    ensures NoTemps(files, id)
  {
    var taken := set p: Path | p in files && p.TempFile? :: p.id;
    assert forall k, kind :: TempFile(k, kind) in files ==> k in taken;
    id := DrawId(taken);
  }

  /** A staged file is there and its commit's other temporary names are unused. */
  ghost predicate StagedAlone(files: Files, id: nat) {
    TempFile(id, Staged) in files && forall kind :: kind != Staged ==> TempFile(id, kind) !in files
  }

  /** At most one of the operations at ticks `from` up to `to` fails. */
  ghost predicate OneFault(fails: nat -> bool, from: nat, to: nat) {
    forall i, j :: from <= i < j < to ==> !(fails(i) && fails(j))
  }

  /** After the one fault nothing else fails. */
  lemma OnlyThatFault(disk: Disk, from: nat, mid: nat)
    requires from < mid && disk.fails(mid - 1) && OneFault(disk.fails, from, disk.ticks)
    ensures disk.Quiet(mid)
  {}

  class FileObjectStore {
    const disk: Disk
    const sha: bytes -> bytes

    constructor (disk: Disk, sha: bytes -> bytes)
      ensures this.disk == disk && this.sha == sha
    {
      this.disk, this.sha := disk, sha;
    }

    function Digest(bucket: bytes, key: bytes): bytes { sha(StorageKey(bucket, key)) }

    // ------------------------------------------------------------------ commit

    method Prepare(d: bytes, id: nat, m: ObjectMetadata) returns (r: Option<(bool, bool)>)
      requires StagedAlone(disk.files, id)
      modifies disk
      ensures old(disk.ticks) <= disk.ticks
      ensures r.Some? <==> disk.Quiet(old(disk.ticks))
      ensures r.Some? ==> disk.ticks == old(disk.ticks) + 5
      ensures r.None? ==> exists f :: old(disk.ticks) <= f < old(disk.ticks) + 5 && f < disk.ticks && disk.fails(f)
      ensures r.Some? ==> r.value == (DataFile(d) in old(disk.files), MetaFile(d) in old(disk.files))
      ensures r.Some? ==> Get(disk.files, TempFile(id, MetadataTmp)) == Some(Json(m))
      ensures r.Some? ==> Get(disk.files, TempFile(id, ObjectBackup)) == Get(old(disk.files), DataFile(d))
      ensures r.Some? ==> Get(disk.files, TempFile(id, MetadataBackup)) == Get(old(disk.files), MetaFile(d))
      ensures forall p: Path :: !(p.TempFile? && p.id == id && p.kind != Staged) ==>
                Get(disk.files, p) == Get(old(disk.files), p)
    {
      var dir := disk.CreateDir();
      if dir != Done { return None; }
      dir := disk.CreateDir();
      if dir != Done { return None; }
      var written := disk.Write(TempFile(id, MetadataTmp), Json(m));
      if written != Done { return None; }
      var hadObject := disk.BackupExistingFile(DataFile(d), TempFile(id, ObjectBackup));
      if hadObject.None? { return None; }
      var hadMetadata := disk.BackupExistingFile(MetaFile(d), TempFile(id, MetadataBackup));
      if hadMetadata.None? { return None; }
      r := Some((hadObject.value, hadMetadata.value));
    }

    method RollBackBoth(d: bytes, id: nat, hadObject: bool, hadMetadata: bool)
      requires hadObject ==> TempFile(id, ObjectBackup) in disk.files
      requires hadMetadata ==> TempFile(id, MetadataBackup) in disk.files
      modifies disk
      ensures old(disk.ticks) <= disk.ticks
      ensures disk.Quiet(old(disk.ticks)) ==>
                && Get(disk.files, DataFile(d)) ==
                    (if hadObject then Get(old(disk.files), TempFile(id, ObjectBackup)) else None)
                && Get(disk.files, MetaFile(d)) ==
                    (if hadMetadata then Get(old(disk.files), TempFile(id, MetadataBackup)) else None)
      ensures SameElsewhere(disk.files, old(disk.files), d, id)
      ensures !hadMetadata && MetaFile(d) !in old(disk.files) ==> MetaFile(d) !in disk.files
      ensures (forall i :: old(disk.ticks) <= i ==> disk.fails(i)) ==> disk.files == old(disk.files)
    {
      disk.RollbackPublishedFile(DataFile(d), TempFile(id, ObjectBackup), hadObject);
      ghost var mid := disk.files;
      assert Get(mid, MetaFile(d)) == Get(old(disk.files), MetaFile(d));
      assert Get(mid, TempFile(id, MetadataBackup)) == Get(old(disk.files), TempFile(id, MetadataBackup));
      disk.RollbackPublishedFile(MetaFile(d), TempFile(id, MetadataBackup), hadMetadata);
      assert Get(disk.files, DataFile(d)) == Get(mid, DataFile(d));
    }

    /** The two renames; a failure of the second rolls both files back. */
    method Publish(d: bytes, id: nat, hadObject: bool, hadMetadata: bool) returns (ok: bool)
      requires TempFile(id, Staged) in disk.files && TempFile(id, MetadataTmp) in disk.files
      requires hadObject == (DataFile(d) in disk.files) && hadMetadata == (MetaFile(d) in disk.files)
      requires Get(disk.files, TempFile(id, ObjectBackup)) == Get(disk.files, DataFile(d))
      requires Get(disk.files, TempFile(id, MetadataBackup)) == Get(disk.files, MetaFile(d))
      modifies disk
      ensures old(disk.ticks) <= disk.ticks
      ensures ok <==> disk.Quiet(old(disk.ticks))
      ensures ok ==> disk.ticks == old(disk.ticks) + 2
      ensures ok ==> Get(disk.files, MetaFile(d)) == Get(old(disk.files), TempFile(id, MetadataTmp))
      ensures ok ==> Get(disk.files, DataFile(d)) == Get(old(disk.files), TempFile(id, Staged))
      ensures ok ==> TempFile(id, Staged) !in disk.files && TempFile(id, MetadataTmp) !in disk.files
      ensures ok ==> forall k :: k != Staged && k != MetadataTmp ==>
                Get(disk.files, TempFile(id, k)) == Get(old(disk.files), TempFile(id, k))
      ensures !ok ==> PairHalfPublished(old(disk.files), disk.files, d, id, disk.fails, old(disk.ticks), disk.ticks)
      ensures ok ==> !disk.fails(old(disk.ticks)) && !disk.fails(old(disk.ticks) + 1)
      ensures SameElsewhere(disk.files, old(disk.files), d, id)
    {
      ghost var was, start := disk.files, disk.ticks;
      var renamed := RenameBoth(d, id);
      if renamed == 1 {
        hide OneFault;
        ghost var half, mid := disk.files, disk.ticks;
        assert Get(half, TempFile(id, ObjectBackup)) == Get(was, DataFile(d));
        assert Get(half, TempFile(id, MetadataBackup)) == Get(was, MetaFile(d));
        RollBackBoth(d, id, hadObject, hadMetadata);
        if OneFault(disk.fails, start, disk.ticks) { OnlyThatFault(disk, start, mid); }
      }
      ok := renamed == 2;
    }

    /** Bytes first, then metadata; the number of renames done. */
    method RenameBoth(d: bytes, id: nat) returns (renamed: nat)
      requires TempFile(id, Staged) in disk.files && TempFile(id, MetadataTmp) in disk.files
      modifies disk
      ensures disk.ticks == old(disk.ticks) + if renamed == 0 then 1 else 2
      ensures renamed <= 2
      ensures renamed == 0 ==> disk.fails(old(disk.ticks))
      ensures renamed >= 1 ==> !disk.fails(old(disk.ticks))
      ensures renamed >= 1 ==> (renamed == 2 <==> !disk.fails(old(disk.ticks) + 1))
      ensures forall p :: Get(disk.files, p) ==
                if renamed >= 1 && p == DataFile(d) then Get(old(disk.files), TempFile(id, Staged))
                else if renamed == 2 && p == MetaFile(d) then Get(old(disk.files), TempFile(id, MetadataTmp))
                else if renamed >= 1 && p == TempFile(id, Staged) then None
                else if renamed == 2 && p == TempFile(id, MetadataTmp) then None
                else Get(old(disk.files), p)
    {
      var first := disk.Rename(TempFile(id, Staged), DataFile(d));
      if first != Done { return 0; }
      var second := disk.Rename(TempFile(id, MetadataTmp), MetaFile(d));
      renamed := if second == Done then 2 else 1;
    }

    method DropBackups(d: bytes, id: nat, hadObject: bool, hadMetadata: bool) returns (ok: bool)
      requires TempFile(id, Staged) !in disk.files && TempFile(id, MetadataTmp) !in disk.files
      requires !hadObject ==> TempFile(id, ObjectBackup) !in disk.files
      requires !hadMetadata ==> TempFile(id, MetadataBackup) !in disk.files
      modifies disk
      ensures old(disk.ticks) <= disk.ticks
      ensures ok <==> disk.Quiet(old(disk.ticks))
      ensures ok ==> NoTemps(disk.files, id)
      ensures forall p: Path :: !(p.TempFile? && p.id == id) ==> Get(disk.files, p) == Get(old(disk.files), p)
    {
      ok := disk.RemoveBackupFile(TempFile(id, ObjectBackup), hadObject);
      if !ok { return; }
      ok := disk.RemoveBackupFile(TempFile(id, MetadataBackup), hadMetadata);
      if ok {
        forall kind ensures TempFile(id, kind) !in disk.files {
          match kind case Staged => case MetadataTmp => case ObjectBackup => case MetadataBackup =>
        }
      }
    }

    method Discard(id: nat)
      modifies disk
      ensures old(disk.ticks) <= disk.ticks
      ensures disk.Quiet(old(disk.ticks)) ==> NoTemps(disk.files, id)
      ensures forall p: Path :: !(p.TempFile? && p.id == id) ==> Get(disk.files, p) == Get(old(disk.files), p)
    {
      var _ := disk.RemoveFileIfExists(TempFile(id, Staged));
      var _ := disk.RemoveFileIfExists(TempFile(id, MetadataTmp));
      var _ := disk.RemoveFileIfExists(TempFile(id, ObjectBackup));
      var _ := disk.RemoveFileIfExists(TempFile(id, MetadataBackup));
      if disk.Quiet(old(disk.ticks)) {
        forall kind ensures TempFile(id, kind) !in disk.files {
          match kind case Staged => case MetadataTmp => case ObjectBackup => case MetadataBackup =>
        }
      }
    }
  
    /** The fallible part of a commit; `reached` counts prepare and publish as they succeed. */
    method Attempt(d: bytes, id: nat, m: ObjectMetadata) returns (ok: bool, ghost reached: nat)
      requires StagedAlone(disk.files, id)
      modifies disk
      ensures old(disk.ticks) <= disk.ticks
      ensures SameElsewhere(disk.files, old(disk.files), d, id)
      ensures ok <==> disk.Quiet(old(disk.ticks))
      ensures ok ==> reached == 2 && NoTemps(disk.files, id)
      ensures reached <= 2
      ensures reached == 0 ==> Pair(disk.files, d) == Pair(old(disk.files), d)
      ensures reached == 0 ==> exists f :: old(disk.ticks) <= f < old(disk.ticks) + 5 && f < disk.ticks && disk.fails(f)
      ensures reached >= 1 ==> old(disk.ticks) + 5 < disk.ticks
      ensures reached >= 1 ==> forall i :: old(disk.ticks) <= i < old(disk.ticks) + 5 ==> !disk.fails(i)
      ensures reached == 1 ==>
                PairHalfPublished(old(disk.files), disk.files, d, id, disk.fails, old(disk.ticks) + 5, disk.ticks)
      ensures reached == 2 ==> PairIsNew(old(disk.files), disk.files, d, id, m)
      ensures reached == 2 ==> !disk.fails(old(disk.ticks) + 5) && !disk.fails(old(disk.ticks) + 6)
    {
      ok, reached := false, 0;
      var before := Prepare(d, id, m);
      if before.None? { return; }
      reached := 1;
      var published := Publish(d, id, before.value.0, before.value.1);
      if !published { return; }
      reached := 2;
      ok := DropBackups(d, id, before.value.0, before.value.1);
    }

    /**
      Publishing is all or nothing. With at most one failing operation the pair of
      files afterwards is the old one if the failure came before the second rename was
      done and the new one otherwise, and no temporary of this commit is left; success
      means the new one; no other key is touched whatever fails.
    */
    method CommitStagedObject(id: nat, m: ObjectMetadata) returns (ok: bool)
      requires StagedAlone(disk.files, id)
      modifies disk
      ensures old(disk.ticks) <= disk.ticks
      ensures SameElsewhere(disk.files, old(disk.files), Digest(m.bucket, m.key), id)
      ensures ok ==> disk.Quiet(old(disk.ticks))
      ensures ok ==> PairIsNew(old(disk.files), disk.files, Digest(m.bucket, m.key), id, m)
      ensures !ok ==> !disk.Quiet(old(disk.ticks))
      ensures ok || OneFault(disk.fails, old(disk.ticks), disk.ticks) ==> NoTemps(disk.files, id)
      ensures OneFault(disk.fails, old(disk.ticks), disk.ticks) ==>
                if exists f :: old(disk.ticks) <= f < old(disk.ticks) + 7 && disk.fails(f)
                then Pair(disk.files, Digest(m.bucket, m.key)) == old(Pair(disk.files, Digest(m.bucket, m.key)))
                else PairIsNew(old(disk.files), disk.files, Digest(m.bucket, m.key), id, m)
      // a first-time commit is all or nothing to a reader under every fault pattern
      ensures MetaFile(Digest(m.bucket, m.key)) !in old(disk.files) ==>
                MetaFile(Digest(m.bucket, m.key)) !in disk.files
                || PairIsNew(old(disk.files), disk.files, Digest(m.bucket, m.key), id, m)
      // the pair that a crash leaves, by the number of operations that took effect
      ensures forall c: nat :: CrashedAt(disk.fails, c) && old(disk.ticks) <= c ==>
                PairAfterCrash(old(disk.files), disk.files, Digest(m.bucket, m.key), id, m, c - old(disk.ticks))
    {
      var d := Digest(m.bucket, m.key);
      ghost var reached;
      ok, reached := Attempt(d, id, m);
      if !ok {
        ghost var f :| old(disk.ticks) <= f < disk.ticks && disk.fails(f);
        ghost var pair := Pair(disk.files, d);
        Discard(id);
        assert Pair(disk.files, d) == pair;
      }
    }

    // ---------------------------------------------------------- head, open, delete

    /** Metadata is shown only while the bytes are there too. */
    method HeadObject(bucket: bytes, key: bytes) returns (r: StoreResult<Option<ObjectMetadata>>)
      modifies disk`ticks
      ensures old(disk.ticks) <= disk.ticks
      ensures r.IoFailed? <==> !disk.Quiet(old(disk.ticks))
      ensures r.Good? ==>
                r.value == match Visible(disk.files, Digest(bucket, key)) case None => None case Some(v) => Some(v.0)
      ensures r.Unparsable? ==>
                MetaFile(Digest(bucket, key)) in disk.files && !disk.files[MetaFile(Digest(bucket, key))].Json?
    {
      var d := Digest(bucket, key);
      var r1, content := disk.Read(MetaFile(d));
      if r1 == Broken { return IoFailed; }
      if r1 == NotFound { return Good(None); }
      if !content.Json? { return Unparsable; }
      var r2, _ := disk.Read(DataFile(d));
      if r2 == Broken { return IoFailed; }
      r := Good(if r2 == Done then Some(content.metadata) else None);
    }

    method OpenObject(bucket: bytes, key: bytes) returns (r: StoreResult<Option<(ObjectMetadata, Content)>>)
      modifies disk`ticks
      ensures old(disk.ticks) <= disk.ticks
      ensures r.IoFailed? <==> !disk.Quiet(old(disk.ticks))
      ensures r.Good? ==> r.value == Visible(disk.files, Digest(bucket, key))
      ensures r.Unparsable? ==>
                MetaFile(Digest(bucket, key)) in disk.files && !disk.files[MetaFile(Digest(bucket, key))].Json?
    {
      var head := HeadObject(bucket, key);
      match head {
        case IoFailed => return IoFailed;
        case Unparsable => return Unparsable;
        case Good(None) => return Good(None);
        case Good(Some(m)) =>
          var r2, content := disk.Read(DataFile(Digest(bucket, key)));
          if r2 == Broken { return IoFailed; }
          return Good(if r2 == Done then Some((m, content)) else None);
      }
    }

    /** Metadata goes first, so a key whose delete was interrupted is no longer visible. */
    method DeleteObject(bucket: bytes, key: bytes) returns (ok: bool)
      modifies disk
      ensures old(disk.ticks) <= disk.ticks
      ensures ok <==> disk.Quiet(old(disk.ticks))
      ensures forall p :: p != DataFile(Digest(bucket, key)) && p != MetaFile(Digest(bucket, key)) ==>
                Get(disk.files, p) == Get(old(disk.files), p)
      ensures ok ==> MetaFile(Digest(bucket, key)) !in disk.files
      ensures disk.fails(old(disk.ticks)) ==> disk.files == old(disk.files)
      ensures !disk.fails(old(disk.ticks)) ==> MetaFile(Digest(bucket, key)) !in disk.files
      ensures Pair(disk.files, Digest(bucket, key)) == Pair(old(disk.files), Digest(bucket, key))
              || MetaFile(Digest(bucket, key)) !in disk.files
    {
      var d := Digest(bucket, key);
      var r := disk.Remove(MetaFile(d));
      if r == Broken { return false; }
      if r == NotFound { return true; }
      ok := disk.RemoveFileIfExists(DataFile(d));
    }
  }

  // -------------------------------------------------------------- startup cleanup

  function WithoutTemps(files: Files): Files {
    map p: Path | p in files && !p.InTmp() :: files[p]
  }

  /** Bytes without metadata go. */
  function WithoutOrphanData(files: Files): Files {
    map p | p in files && (p.DataFile? ==> MetaFile(p.digest) in files) :: files[p]
  }

  /** Metadata without bytes goes. */
  function WithoutOrphanMeta(files: Files): Files {
    map p | p in files && (p.MetaFile? ==> DataFile(p.digest) in files) :: files[p]
  }

  function Reopened(files: Files): Files {
    WithoutOrphanMeta(WithoutOrphanData(WithoutTemps(files)))
  }

  method CleanupStaleTempFiles(disk: Disk) returns (ok: bool)
    modifies disk
    ensures old(disk.ticks) <= disk.ticks && (ok <==> disk.Quiet(old(disk.ticks)))
    ensures ok ==> disk.files == WithoutTemps(old(disk.files))
  {
    ghost var was := disk.files;
    var todo := set p: Path | p in disk.files && p.InTmp();
    while todo != {}
      invariant old(disk.ticks) <= disk.ticks && disk.Quiet(old(disk.ticks))
      invariant forall p: Path :: p in todo ==> p.InTmp()
      invariant forall p: Path :: p in disk.files <==> p in was && (!p.InTmp() || p in todo)
      invariant forall p :: p in disk.files ==> disk.files[p] == was[p]
      decreases todo
    {
      var p :| p in todo;
      ok := disk.RemoveFileIfExists(p);
      if !ok { return; }
      todo := todo - {p};
    }
    assert disk.files == WithoutTemps(was);
    ok := true;
  }

  method CleanupOrphanedObjectFiles(disk: Disk) returns (ok: bool)
    modifies disk
    ensures old(disk.ticks) <= disk.ticks && (ok <==> disk.Quiet(old(disk.ticks)))
    ensures ok ==> disk.files == WithoutOrphanData(old(disk.files))
  {
    ghost var was := disk.files;
    var todo := set p | p in disk.files && p.DataFile?;
    while todo != {}
      invariant old(disk.ticks) <= disk.ticks && disk.Quiet(old(disk.ticks))
      invariant forall p :: p in todo ==> p.DataFile? && p in was
      invariant forall p :: p in disk.files <==> p in was && (p.DataFile? ==> p in todo || MetaFile(p.digest) in was)
      invariant forall p :: p in disk.files ==> disk.files[p] == was[p]
      decreases todo
    {
      var p :| p in todo;
      var found, _ := disk.Read(MetaFile(p.digest));
      if found == Broken { return false; }
      if found == NotFound {
        ok := disk.RemoveFileIfExists(p);
        if !ok { return; }
      }
      todo := todo - {p};
    }
    assert disk.files == WithoutOrphanData(was);
    ok := true;
  }

  method CleanupOrphanedMetadataFiles(disk: Disk) returns (ok: bool)
    modifies disk
    ensures old(disk.ticks) <= disk.ticks && (ok <==> disk.Quiet(old(disk.ticks)))
    ensures ok ==> disk.files == WithoutOrphanMeta(old(disk.files))
  {
    ghost var was := disk.files;
    var todo := set p | p in disk.files && p.MetaFile?;
    while todo != {}
      invariant old(disk.ticks) <= disk.ticks && disk.Quiet(old(disk.ticks))
      invariant forall p :: p in todo ==> p.MetaFile? && p in was
      invariant forall p :: p in disk.files <==> p in was && (p.MetaFile? ==> p in todo || DataFile(p.digest) in was)
      invariant forall p :: p in disk.files ==> disk.files[p] == was[p]
      decreases todo
    {
      var p :| p in todo;
      var found, _ := disk.Read(DataFile(p.digest));
      if found == Broken { return false; }
      if found == NotFound {
        ok := disk.RemoveFileIfExists(p);
        if !ok { return; }
      }
      todo := todo - {p};
    }
    assert disk.files == WithoutOrphanMeta(was);
    ok := true;
  }

  /** Opening a store: three directories, then the three cleanups. */
  method Reopen(disk: Disk) returns (ok: bool)
    modifies disk
    ensures old(disk.ticks) <= disk.ticks && (ok <==> disk.Quiet(old(disk.ticks)))
    ensures ok ==> disk.files == Reopened(old(disk.files))
  {
    for i := 0 to 3
      invariant old(disk.ticks) <= disk.ticks && disk.Quiet(old(disk.ticks)) && disk.files == old(disk.files)
    {
      var r := disk.CreateDir();
      if r != Done { return false; }
    }
    ok := CleanupStaleTempFiles(disk);
    if !ok { return; }
    ok := CleanupOrphanedObjectFiles(disk);
    if !ok { return; }
    ok := CleanupOrphanedMetadataFiles(disk);
  }

  /** Startup shows readers exactly what they saw before it. */
  lemma ReopenKeepsVisible(files: Files, d: bytes)
    ensures Visible(Reopened(files), d) == Visible(files, d)
  {}

  /** After startup bytes and metadata come in pairs and no temporary is left. */
  lemma ReopenPairsUp(files: Files)
    ensures forall d :: DataFile(d) in Reopened(files) <==> MetaFile(d) in Reopened(files)
    ensures forall p: Path :: p in Reopened(files) ==> !p.InTmp()
  {}

  /** A second startup changes nothing. */
  lemma ReopenIsIdempotent(files: Files)
    ensures Reopened(Reopened(files)) == Reopened(files)
  {
    ReopenPairsUp(files);
  }

  /** What a failed publish leaves, by which of its operations failed. */
  ghost predicate PairHalfPublished(was: Files, now: Files, d: bytes, id: nat, fails: nat -> bool, at: nat, to: nat) {
    && (fails(at) || (at + 1 < to && fails(at + 1)))
    && (OneFault(fails, at, to) || fails(at) ==> Pair(now, d) == Pair(was, d))
    && (MetaFile(d) !in was ==> MetaFile(d) !in now)
    && (!fails(at) && (forall i :: at < i ==> fails(i)) ==>
          Pair(now, d) == (Get(was, MetaFile(d)), Get(was, TempFile(id, Staged))))
  }

  /** Readers see the key as it was, or wholly as the commit meant it. */
  ghost predicate OldOrNew(was: Files, now: Files, d: bytes, m: ObjectMetadata, content: Content) {
    Visible(now, d) == Visible(was, d) || Visible(now, d) == Some((m, content))
  }

  /** A commit of a first-time key, or with one fault at most, shows readers nothing in between. */
  lemma CommitShowsOldOrNew(
      was: Files, now: Files, d: bytes, id: nat, m: ObjectMetadata, fails: nat -> bool, from: nat, to: nat)
    requires TempFile(id, Staged) in was
    requires MetaFile(d) !in was ==> MetaFile(d) !in now || PairIsNew(was, now, d, id, m)
    requires OneFault(fails, from, to) ==> Pair(now, d) == Pair(was, d) || PairIsNew(was, now, d, id, m)
    ensures MetaFile(d) !in was || OneFault(fails, from, to) ==> OldOrNew(was, now, d, m, was[TempFile(id, Staged)])
  {}

  ghost predicate PairIsNew(was: Files, now: Files, d: bytes, id: nat, m: ObjectMetadata) {
    Pair(now, d) == (Some(Json(m)), Get(was, TempFile(id, Staged)))
  }

  /** A crash: nothing from tick `c` on takes effect. */
  ghost predicate CrashedAt(fails: nat -> bool, c: nat) {
    forall i :: fails(i) <==> c <= i
  }

  /** After six operations the bytes are new but the metadata is not; that is the only torn moment. */
  ghost predicate PairAfterCrash(was: Files, now: Files, d: bytes, id: nat, m: ObjectMetadata, done: nat) {
    if done <= 5 then Pair(now, d) == Pair(was, d)
    else if done == 6 then Pair(now, d) == (Get(was, MetaFile(d)), Get(was, TempFile(id, Staged)))
    else PairIsNew(was, now, d, id, m)
  }
}
