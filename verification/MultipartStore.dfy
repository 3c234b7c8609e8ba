/** The operations of the multipart store and what each of them keeps. */
module MultipartStore {
  import opened Bytes
  import opened Checksums
  import opened FileSystem
  import opened ObjectStore
  import opened PutObject
  import opened Multipart

  datatype PartResult = PartCommitted | BackupLeft | PartNoSuchUpload | PublishFailed | PersistFailed

  /** How a step of two file operations fares: neither, the first, or the second fails. */
  datatype StepFault = NoFault | FailsFirst | FailsLast

  /** Faults of a part commit: in its steps, in dropping the backup, and in the two steps of its undoing. */
  datatype PartFaults = PartFaults(
    publish: StepFault, persist: StepFault, dropBackup: bool, undoRemove: bool, undoRename: bool)

  /** Deleting an upload's directory: done, or stopped with or without the session file gone. */
  datatype Removal = Removed | LeftBehind(withSession: bool)

  /** Faults of a completion's own files: claiming, giving back, recording success, and the two cleanups. */
  datatype CompleteFaults = CompleteFaults(
    claim: StepFault, restore: StepFault, record: StepFault, sessionStays: bool, removal: Removal)

  const EMPTY_DIR: UploadDir := UploadDir(None, map[], map[])

  /** The state an upload's session file records, if there is one. */
  function FileState(dirs: map<nat, UploadDir>, id: nat): Option<UploadState> {
    if id in dirs && dirs[id].session.Some? then Some(dirs[id].session.value.state) else None
  }

  /** Undoing a published part needs one of its two steps: the rename if a part was replaced, else the removal. */
  predicate UndoWorks(faults: PartFaults, replaced: bool) {
    if replaced then !faults.undoRename else !faults.undoRemove
  }

  /** The part files after undoing the publication of `n`, given that they had become `parts`. */
  function Undone(parts: map<nat, bytes>, n: nat, previous: Option<bytes>, faults: PartFaults): map<nat, bytes> {
    if previous.Some? && !faults.undoRename then parts[n := previous.value]
    else if faults.undoRemove then parts
    else parts - {n}
  }

  class FileMultipartStore {
    var sessions: map<nat, Session>
    var dirs: map<nat, UploadDir>
    const lib: Library

    constructor (lib: Library)
      ensures Valid() && sessions == map[] && dirs == map[] && this.lib == lib
    {
      sessions, dirs, this.lib := map[], map[], lib;
    }

    /** Every open session is backed by its session file and exactly its part files. */
    ghost predicate Valid()
      reads this
    {
      AllSound(lib, sessions, dirs)
    }

    function Dir(id: nat): UploadDir
      reads this
    {
      if id in dirs then dirs[id] else EMPTY_DIR
    }

    predicate IsOpen(id: nat)
      reads this
    {
      id in sessions && sessions[id].state == Open
    }

    /** Writes a session file by rename: it is replaced whole or not at all. */
    method PersistSession(id: nat, s: Session, fault: StepFault) returns (ok: bool)
      modifies this`dirs
      ensures ok <==> fault == NoFault
      ensures ok ==> dirs == old(dirs)[id := old(Dir(id)).(session := Some(s))]
      ensures !ok ==> dirs == old(dirs) || dirs == old(dirs)[id := old(Dir(id))]
    {
      if fault == FailsFirst { return false; }
      dirs := dirs[id := Dir(id)];
      if fault == FailsLast { return false; }
      dirs := dirs[id := dirs[id].(session := Some(s))];
      ok := true;
    }

    /** A new upload has no parts, in memory and on disk. */
    method CreateUpload(
        id: nat, bucket: bytes, key: bytes, initiated: int, described: bytes, noDir: bool, persist: StepFault)
      returns (ok: bool)
      requires Valid() && id !in sessions && id !in dirs
      modifies this
      ensures Valid()
      ensures ok <==> !noDir && persist == NoFault
      ensures !ok ==> sessions == old(sessions)
      ensures ok ==> sessions == old(sessions)[id := Session(bucket, key, initiated, Open, described, map[])]
      ensures ok ==> id in dirs && dirs[id].parts == map[] && FileState(dirs, id) == Some(Open)
      ensures forall other :: other != id ==> Get0(dirs, other) == Get0(old(dirs), other)
    {
      var s := Session(bucket, key, initiated, Open, described, map[]);
      if noDir { return false; }
      dirs := dirs[id := EMPTY_DIR];
      ok := PersistSession(id, s, persist);
      if !ok { return; }
      sessions := sessions[id := s];
    }

    /** The publish half of a part commit: backup, then rename over the part file. */
    method PublishPart(id: nat, n: nat, temp: nat, backup: nat, hadPrevious: bool, fault: StepFault) returns (ok: bool)
      requires id in dirs && temp in dirs[id].temps && backup !in dirs[id].temps
      requires hadPrevious == (n in dirs[id].parts)
      modifies this`dirs
      ensures ok <==> fault == NoFault
      ensures forall other :: other != id ==> Get0(dirs, other) == Get0(old(dirs), other)
      ensures id in dirs && dirs[id].session == old(dirs[id].session)
      ensures !ok ==> dirs[id].parts == old(dirs[id].parts)
      ensures ok ==> dirs[id].parts == old(dirs[id].parts)[n := old(dirs[id].temps[temp])]
      ensures ok && hadPrevious ==> backup in dirs[id].temps && dirs[id].temps[backup] == old(dirs[id].parts)[n]
    {
      var dir := dirs[id];
      var published := false;
      if fault != FailsFirst {
        if hadPrevious { dir := dir.(temps := dir.temps[backup := dir.parts[n]]); }
        if fault != FailsLast {
          dir := dir.(parts := dir.parts[n := dir.temps[temp]], temps := dir.temps - {temp});
          published := true;
        }
      }
      if !published { dir := dir.(temps := dir.temps - {temp, backup}); }
      dirs := dirs[id := dir];
      ok := published;
    }

    /** Undoes a part whose session could not be written, in memory and, as far as that works, on disk. */
    method RollBackPart(id: nat, n: nat, backup: nat, previous: Option<PartMetadata>, faults: PartFaults)
      requires id in dirs && id in sessions && (previous.Some? ==> backup in dirs[id].temps)
      modifies this
      ensures forall other :: other != id ==> Get0(dirs, other) == Get0(old(dirs), other)
      ensures id in dirs && dirs[id].session == old(dirs[id].session)
      ensures dirs[id].parts == Undone(
                old(dirs[id].parts), n, if previous.Some? then Some(old(dirs[id].temps[backup])) else None, faults)
      ensures sessions == old(sessions)[id := old(sessions[id]).(parts :=
                if previous.Some? then old(sessions[id]).parts[n := previous.value] else old(sessions[id]).parts - {n})]
    {
      var dir := dirs[id];
      if !faults.undoRemove { dir := dir.(parts := dir.parts - {n}); }
      if previous.Some? {
        if !faults.undoRename {
          dir := dir.(parts := dir.parts[n := dir.temps[backup]], temps := dir.temps - {backup});
          assert dir.parts == dirs[id].parts[n := dirs[id].temps[backup]];
        }
        sessions := sessions[id := sessions[id].(parts := sessions[id].parts[n := previous.value])];
      } else {
        sessions := sessions[id := sessions[id].(parts := sessions[id].parts - {n})];
      }
      dirs := dirs[id := dir];
    }

    /** The record half of a part commit: memory, then the session file, then perhaps the undoing. */
    method RecordPart(
        id: nat, n: nat, backup: nat, part: PartMetadata, faults: PartFaults,
        ghost d0: map<nat, UploadDir>, ghost data: bytes)
      returns (r: PartResult)
      requires IsOpen(id) && id in d0 && id in dirs
      requires AllSound(lib, sessions, d0) && PartDescribes(lib, part, data)
      requires forall other :: other != id ==> Get0(dirs, other) == Get0(d0, other)
      requires dirs[id].session == d0[id].session && dirs[id].parts == d0[id].parts[n := data]
      requires n in sessions[id].parts ==>
                 n in d0[id].parts && backup in dirs[id].temps && dirs[id].temps[backup] == d0[id].parts[n]
      modifies this
      ensures r == if faults.persist != NoFault then PersistFailed
                   else if faults.dropBackup && n in old(sessions[id]).parts then BackupLeft
                   else PartCommitted
      ensures forall other :: other != id ==> Get0(dirs, other) == Get0(d0, other)
      ensures id in dirs
      ensures r == PersistFailed ==>
                && sessions == old(sessions)
                && dirs[id].session == d0[id].session
                && dirs[id].parts == Undone(
                     d0[id].parts[n := data], n,
                     if n in sessions[id].parts then Some(d0[id].parts[n]) else None, faults)
      ensures r != PersistFailed ==>
                && sessions == old(sessions)[id := old(sessions[id]).(parts := old(sessions[id]).parts[n := part])]
                && dirs[id].parts == d0[id].parts[n := data]
                && dirs[id].session == Some(sessions[id])
    {
      hide AllSound, PartDescribes;
      var session := sessions[id];
      var hadPrevious := n in session.parts;
      UndoPart(session.parts, n, part);
      sessions := sessions[id := session.(parts := session.parts[n := part])];
      var ok := PersistSession(id, sessions[id], faults.persist);
      if !ok {
        RollBackPart(id, n, backup, if hadPrevious then Some(session.parts[n]) else None, faults);
        assert sessions[id] == session;
        return PersistFailed;
      }
      r := PartCommitted;
      if hadPrevious {
        if faults.dropBackup { r := BackupLeft; } else {
          dirs := dirs[id := dirs[id].(temps := dirs[id].temps - {backup})];
        }
      }
    }

    /**
      Uploading or re-uploading a part: either the part and its bytes are in the session,
      the session file and the part file, or memory is as it was and so are the files,
      unless the undoing failed too. Exactly then can the upload become unsound.
    */
    method CommitPart(id: nat, n: nat, temp: nat, backup: nat, part: PartMetadata, faults: PartFaults)
      returns (r: PartResult)
      requires Valid()
      requires IsOpen(id) ==> temp in dirs[id].temps && backup !in dirs[id].temps
      requires IsOpen(id) ==> PartDescribes(lib, part, dirs[id].temps[temp])
      modifies this
      ensures r == PartOutcome(old(IsOpen(id)), faults, old(IsOpen(id) && n in sessions[id].parts))
      ensures Valid() <==>
                || r != PersistFailed
                || UndoWorks(faults, n in old(sessions[id]).parts)
                || (n in old(sessions[id]).parts && faults.undoRemove
                    && PartDescribes(lib, old(sessions[id]).parts[n], old(dirs[id].temps[temp])))
      ensures !Recorded(r) ==> sessions == old(sessions)
      ensures r == PublishFailed || (r == PersistFailed && UndoWorks(faults, n in old(sessions[id]).parts)) ==>
                dirs[id].parts == old(dirs[id].parts)
      ensures Recorded(r) ==>
                && sessions == old(sessions)[id := old(sessions[id]).(parts := old(sessions[id]).parts[n := part])]
                && dirs[id].parts == old(dirs[id].parts)[n := old(dirs[id].temps[temp])]
      ensures forall other :: other != id ==> Get0(dirs, other) == Get0(old(dirs), other)
    {
      if !IsOpen(id) { return PartNoSuchUpload; }
      ghost var s0, d0 := sessions, dirs;
      assert id in dirs && Sound(lib, sessions[id], dirs[id]);
      ghost var data := dirs[id].temps[temp];
      var ok := PublishPart(id, n, temp, backup, n in sessions[id].parts, faults.publish);
      hide Sound, AllSound, PartDescribes;
      if !ok {
        SoundIfSame(lib, s0[id], d0[id], dirs[id]);
        OthersStaySound(lib, s0, d0, sessions, dirs, id);
        return PublishFailed;
      }
      PartKeys(lib, s0[id], d0[id]);
      r := RecordPart(id, n, backup, part, faults, d0, data);
      hide Undone;
      if r == PersistFailed {
        SoundAfterUndo(lib, s0[id], d0[id], dirs[id], n, data, faults);
      } else {
        SoundWithPart(lib, s0[id], d0[id], dirs[id], n, part, data);
      }
      SoundTogether(lib, s0, d0, sessions, dirs, id);
    }

    /** Ok removes the session and its directory; a failure to delete leaves it aborted, for restarts too. */
    method AbortUpload(id: nat, persist: StepFault, removal: Removal) returns (ok: bool)
      requires Valid()
      modifies this
      ensures Valid()
      ensures ok <==> old(IsOpen(id)) && persist == NoFault && removal == Removed
      ensures ok ==> sessions == old(sessions) - {id} && dirs == old(dirs) - {id}
      ensures !ok ==> sessions == if old(IsOpen(id)) && persist == NoFault
                                  then old(sessions)[id := old(sessions[id]).(state := Aborted)] else old(sessions)
      ensures old(IsOpen(id)) && persist == NoFault ==> FileState(dirs, id) != Some(Open)
      ensures !(old(IsOpen(id)) && persist == NoFault) ==> dirs == old(dirs)
      ensures forall other :: other != id ==> Get0(dirs, other) == Get0(old(dirs), other)
    {
      if !IsOpen(id) { return false; }
      ghost var s0, d0 := sessions, dirs;
      assert Sound(lib, sessions[id], dirs[id]);
      var aborted := sessions[id].(state := Aborted);
      ok := PersistSession(id, aborted, persist);
      if !ok { return; }
      sessions := sessions[id := aborted];
      RemoveDir(id, removal);
      OthersStaySound(lib, s0, d0, sessions, dirs, id);
      if removal != Removed { return false; }
      sessions := sessions - {id};
    }

    /** Deletes an upload's directory; what is left of it when that stops half-way is arbitrary. */
    method RemoveDir(id: nat, removal: Removal)
      requires id in dirs
      modifies this`dirs
      ensures removal == Removed ==> dirs == old(dirs) - {id}
      ensures removal != Removed ==>
                id in dirs && dirs[id].session == if removal.withSession then old(dirs[id].session) else None
      ensures forall other :: other != id ==> Get0(dirs, other) == Get0(old(dirs), other)
    {
      if removal == Removed {
        dirs := dirs - {id};
      } else {
        var debris: UploadDir := *;
        dirs := dirs[id := debris.(session := if removal.withSession then dirs[id].session else None)];
      }
    }

    // ------------------------------------------------------------------ completion

    /** Claims an open upload; failing to write the session file is only logged. */
    method BeginCompletion(id: nat, fault: StepFault) returns (r: Option<Session>)
      requires Valid()
      modifies this
      ensures r.None? <==> !old(IsOpen(id))
      ensures r.None? ==> sessions == old(sessions) && dirs == old(dirs)
      ensures r.Some? ==> r.value == old(sessions[id]).(state := Completing)
      ensures r.Some? ==> sessions == old(sessions)[id := r.value]
      ensures r.Some? ==> SameUpload(old(dirs), dirs, id)
      ensures r.Some? && fault != NoFault ==> dirs == old(dirs)
      ensures r.Some? ==> FileState(dirs, id) == if fault == NoFault then Some(Completing) else FileState(old(dirs), id)
    {
      if !IsOpen(id) { return None; }
      var claimed := sessions[id].(state := Completing);
      sessions := sessions[id := claimed];
      var _ := PersistSession(id, claimed, fault);
      r := Some(claimed);
    }

    /** Gives an upload back after a failed completion; again the session file is best effort. */
    method RestoreOpen(id: nat, fault: StepFault)
      modifies this
      ensures id in old(sessions) ==> sessions == old(sessions)[id := old(sessions[id]).(state := Open)]
      ensures id !in old(sessions) ==> sessions == old(sessions) && dirs == old(dirs)
      ensures id in old(sessions) && id in old(dirs) && FileAgrees(old(sessions[id]), old(dirs[id])) ==>
                SameUpload(old(dirs), dirs, id)
      ensures id in old(sessions) && id in old(dirs) ==>
                FileState(dirs, id) == if fault == NoFault then Some(Open) else FileState(old(dirs), id)
    {
      if id !in sessions { return; }
      sessions := sessions[id := sessions[id].(state := Open)];
      var _ := PersistSession(id, sessions[id], fault);
    }

    /** Forgets a published upload; its files are cleaned up as far as that works. */
    method Forget(id: nat, faults: CompleteFaults)
      requires id in sessions && id in dirs
      modifies this
      ensures sessions == old(sessions) - {id}
      ensures forall other :: other != id ==> Get0(dirs, other) == Get0(old(dirs), other)
      ensures FileState(dirs, id) == Some(Open) <==>
                && FileState(old(dirs), id) == Some(Open)
                && faults.record != NoFault && faults.sessionStays && faults.removal == LeftBehind(true)
      ensures faults.record != NoFault && faults.sessionStays && faults.removal == LeftBehind(true) ==>
                id in dirs && dirs[id].session == old(dirs[id].session)
    {
      sessions := sessions[id := sessions[id].(state := Completed)];
      var _ := PersistSession(id, sessions[id], faults.record);
      if !faults.sessionStays { dirs := dirs[id := dirs[id].(session := None)]; }
      RemoveDir(id, faults.removal);
      sessions := sessions - {id};
    }

    /** The body of a completion, between claiming the upload and giving it back. */
    method CompleteAfterTransition(
        store: FileObjectStore, id: nat, session: Session, c: CompleteRequest, oid: nat, rid: nat,
        faults: CompleteFaults)
      returns (r: Result<ObjectMetadata, CompleteError>, ghost attempt: Option<ObjectMetadata>, ghost final: bytes)
      requires id in sessions && id in dirs && dirs[id].parts.Keys == session.parts.Keys
      requires NoTemps(store.disk.files, oid) && ReplaceFile(rid) !in store.disk.files
      modifies this, store.disk
      ensures old(store.disk.ticks) <= store.disk.ticks
      ensures r.Err? ==> sessions == old(sessions) && dirs == old(dirs) && r.error != NoSuchUpload
      ensures r.Err? && store.disk.Quiet(old(store.disk.ticks)) ==> !Completable(lib, session, old(dirs[id].parts), c)
      ensures attempt.Some? <==> r.Ok? || r == Err(ObjectCommitFailed)
      ensures r.Ok? ==> attempt == Some(r.value)
      ensures attempt.Some? ==> CompletedObject(lib, session, old(dirs[id].parts), c, attempt.value, final)
      ensures KeyShows(
                old(store.disk.files), store.disk.files, store.Digest(session.bucket, session.key), r, attempt, final,
                OneFault(store.disk.fails, old(store.disk.ticks), store.disk.ticks))
      ensures r.Ok? ==> sessions == old(sessions) - {id}
      ensures r.Ok? ==> forall other :: other != id ==> Get0(dirs, other) == Get0(old(dirs), other)
      ensures r.Ok? ==> (FileState(dirs, id) == Some(Open) <==>
                && FileState(old(dirs), id) == Some(Open)
                && faults.record != NoFault && faults.sessionStays && faults.removal == LeftBehind(true))
      ensures r.Ok? && faults.record != NoFault && faults.sessionStays && faults.removal == LeftBehind(true) ==>
                id in dirs && dirs[id].session == old(dirs[id].session)
      ensures forall e :: e != store.Digest(session.bucket, session.key) ==>
                Visible(store.disk.files, e) == Visible(old(store.disk.files), e)
    {
      hide NoTemps, OneFault;
      ghost var f0 := store.disk.files;
      attempt, final := None, [];
      NoReplacement(f0, oid);
      var m, built := BuildObject(store.disk, lib, session, dirs[id].parts, c, oid, rid);
      final := built;
      ghost var f1 := store.disk.files;
      assert SamePublished(f1, f0);
      if m.Err? { return Err(m.error), None, final; }
      attempt := Some(m.value);
      forall kind | kind != Staged ensures TempFile(oid, kind) !in f1 {
        assert Get(f1, TempFile(oid, kind)) == Get(f0, TempFile(oid, kind));
      }
      StateIsIrrelevant(lib, session, session, dirs[id].parts, c, m.value, final);
      hide CompletedObject, Completable;
      ghost var start := store.disk.ticks;
      var ok := PublishStaged(store, oid, m.value, f0, final);
      OneFaultWithin(store.disk.fails, old(store.disk.ticks), start, store.disk.ticks);
      if !ok { return Err(ObjectCommitFailed), attempt, final; }
      Forget(id, faults);
      r := Ok(m.value);
    }

    /**
      Completion. On success the object is exactly the requested parts in order (through
      the processors, if any), described by its metadata, and the upload is gone. On any
      failure before the commit nothing published has changed and the upload is open with
      the parts, in memory and on disk, that it had; a failing commit shows the old object
      or the new one if the key is new or one operation failed. While the object store's
      disk works, a completable request succeeds.
    */
    method CompleteUpload(
        store: FileObjectStore, id: nat, c: CompleteRequest, oid: nat, rid: nat, faults: CompleteFaults)
      returns (r: Result<ObjectMetadata, CompleteError>, ghost attempt: Option<ObjectMetadata>, ghost final: bytes)
      requires Valid()
      requires NoTemps(store.disk.files, oid) && ReplaceFile(rid) !in store.disk.files
      modifies this, store.disk
      ensures Valid() && old(store.disk.ticks) <= store.disk.ticks
      ensures r == Err(NoSuchUpload) <==> !old(IsOpen(id))
      ensures attempt.Some? <==> r.Ok? || r == Err(ObjectCommitFailed)
      ensures r.Ok? ==> attempt == Some(r.value)
      ensures attempt.Some? ==>
                CompletedObject(lib, old(sessions[id]), old(dirs[id].parts), c, attempt.value, final)
      ensures old(IsOpen(id)) ==> KeyShows(
                old(store.disk.files), store.disk.files, store.Digest(old(sessions[id]).bucket, old(sessions[id]).key),
                r, attempt, final, OneFault(store.disk.fails, old(store.disk.ticks), store.disk.ticks))
      ensures !old(IsOpen(id)) ==> store.disk.files == old(store.disk.files) && dirs == old(dirs)
      ensures r.Ok? ==> sessions == old(sessions) - {id}
      ensures r.Err? && old(IsOpen(id)) && store.disk.Quiet(old(store.disk.ticks)) ==>
                !Completable(lib, old(sessions[id]), old(dirs[id].parts), c)
      ensures r.Err? ==> sessions == old(sessions)
      ensures r.Err? && old(IsOpen(id)) ==> id in dirs && dirs[id].parts == old(dirs[id].parts)
      // what the session file says afterwards
      ensures r.Err? && old(IsOpen(id)) ==>
                FileState(dirs, id) == if faults.restore == NoFault then Some(Open)
                                       else if faults.claim == NoFault then Some(Completing)
                                       else old(FileState(dirs, id))
      ensures r.Ok? ==>
                (FileState(dirs, id) == Some(Open) <==>
                    old(FileState(dirs, id)) == Some(Open) && NothingRecorded(faults))
      ensures r.Ok? && NothingRecorded(faults) ==> id in dirs && dirs[id].session == old(dirs[id].session)
      ensures old(IsOpen(id)) ==> forall e :: e != store.Digest(old(sessions[id]).bucket, old(sessions[id]).key) ==>
                Visible(store.disk.files, e) == Visible(old(store.disk.files), e)
      ensures forall other :: other != id ==> Get0(dirs, other) == Get0(old(dirs), other)
    {
      hide CompletedObject, Completable, NoTemps, Visible, KeyShows, OneFault;
      attempt, final := None, [];
      ghost var s0, d0 := sessions, dirs;
      var claim := BeginCompletion(id, faults.claim);
      if claim.None? { return Err(NoSuchUpload), None, []; }
      PartKeys(lib, s0[id], d0[id]);
      StateIsUnchecked(lib, s0[id], claim.value, d0[id].parts, c);
      ghost var d1 := dirs;
      ClaimAgrees(lib, s0, d0, dirs, id);
      hide Sound, AllSound;
      r, attempt, final := CompleteAfterTransition(store, id, claim.value, c, oid, rid, faults);
      if attempt.Some? { StateIsIrrelevant(lib, s0[id], claim.value, d0[id].parts, c, attempt.value, final); }
      if r.Err? {
        RestoreOpen(id, faults.restore);
        assert sessions == s0;
        SameTwice(d0, d1, dirs, id);
        Restored(lib, s0, d0, sessions, dirs, id);
      } else {
        OthersStaySound(lib, s0, d0, sessions, dirs, id);
      }
    }
  }

  predicate Recorded(r: PartResult) { r.PartCommitted? || r.BackupLeft? }

  /** What a part commit reports: the first step that failed. */
  function PartOutcome(open: bool, faults: PartFaults, replaced: bool): PartResult {
    if !open then PartNoSuchUpload
    else if faults.publish != NoFault then PublishFailed
    else if faults.persist != NoFault then PersistFailed
    else if faults.dropBackup && replaced then BackupLeft
    else PartCommitted
  }

  /** Nothing of a successful completion reached its session file. */
  predicate NothingRecorded(faults: CompleteFaults) {
    faults.claim != NoFault && faults.record != NoFault && faults.sessionStays && faults.removal == LeftBehind(true)
  }

  /** What readers see under the upload's key after a completion with result `r`. */
  ghost predicate KeyShows(
      was: Files, now: Files, d: bytes, r: Result<ObjectMetadata, CompleteError>, attempt: Option<ObjectMetadata>,
      final: bytes, oneFault: bool)
  {
    && (r.Ok? ==> Visible(now, d) == Some((r.value, Raw(final))))
    && (r.Err? && r.error != ObjectCommitFailed ==> SamePublished(now, was))
    && (r == Err(ObjectCommitFailed) && attempt.Some? && (MetaFile(d) !in was || oneFault) ==>
          OldOrNew(was, now, d, attempt.value, Raw(final)))
  }

  /** A session file is the session but for the state. */
  predicate FileAgrees(s: Session, dir: UploadDir) {
    dir.session.Some? && dir.session.value == s.(state := dir.session.value.state)
  }

  /** An upload's part files, and its session file but for the state, are as they were; so is every other directory. */
  ghost predicate SameUpload(d0: map<nat, UploadDir>, d1: map<nat, UploadDir>, id: nat) {
    && id in d0 && id in d1
    && d1[id].parts == d0[id].parts
    && d0[id].session.Some? && FileAgrees(d0[id].session.value, d1[id])
    && forall other :: other != id ==> Get0(d1, other) == Get0(d0, other)
  }

  lemma SameTwice(d0: map<nat, UploadDir>, d1: map<nat, UploadDir>, d2: map<nat, UploadDir>, id: nat)
    requires SameUpload(d0, d1, id) && SameUpload(d1, d2, id)
    ensures SameUpload(d0, d2, id)
  {}

  lemma ClaimAgrees(
      lib: Library, s0: map<nat, Session>, d0: map<nat, UploadDir>, d1: map<nat, UploadDir>, id: nat)
    requires AllSound(lib, s0, d0) && id in s0 && s0[id].state == Open && SameUpload(d0, d1, id)
    ensures FileAgrees(s0[id].(state := Completing), d1[id])
  {
    assert Sound(lib, s0[id], d0[id]);
  }

  lemma OneFaultWithin(fails: nat -> bool, from: nat, start: nat, to: nat)
    requires from <= start
    ensures OneFault(fails, from, to) ==> OneFault(fails, start, to)
  {}

  lemma PartKeys(lib: Library, s: Session, dir: UploadDir)
    requires Sound(lib, s, dir)
    ensures dir.parts.Keys == s.parts.Keys
  {}

  /** A restored upload is the upload that was claimed. */
  lemma Restored(
      lib: Library, s0: map<nat, Session>, d0: map<nat, UploadDir>,
      s1: map<nat, Session>, d1: map<nat, UploadDir>, id: nat)
    requires AllSound(lib, s0, d0) && id in s0 && s0[id].state == Open
    requires s1 == s0 && SameUpload(d0, d1, id)
    ensures AllSound(lib, s1, d1)
  {
    assert Sound(lib, s1[id], d1[id]);
    OthersStaySound(lib, s0, d0, s1, d1, id);
  }

  /** The checks look at a session's parts, not at its state. */
  lemma StateIsUnchecked(lib: Library, s: Session, s': Session, files: map<nat, bytes>, c: CompleteRequest)
    requires s' == s.(state := s'.state)
    ensures Completable(lib, s, files, c) == Completable(lib, s', files, c)
  {}

  lemma StateIsIrrelevant(
      lib: Library, s: Session, s': Session, files: map<nat, bytes>, c: CompleteRequest, m: ObjectMetadata,
      final: bytes)
    requires s' == s.(state := s'.state) && CompletedObject(lib, s', files, c, m, final)
    ensures CompletedObject(lib, s, files, c, m, final) && m.bucket == s.bucket && m.key == s.key
  {}

  function Get0<T>(m: map<nat, T>, k: nat): Option<T> {
    if k in m then Some(m[k]) else None
  }

  ghost predicate AllSound(lib: Library, sessions: map<nat, Session>, dirs: map<nat, UploadDir>) {
    forall id :: id in sessions && sessions[id].state == Open ==> id in dirs && Sound(lib, sessions[id], dirs[id])
  }

  /** An operation on one upload has only that upload to answer for. */
  lemma OthersStaySound(
      lib: Library, s0: map<nat, Session>, d0: map<nat, UploadDir>,
      s1: map<nat, Session>, d1: map<nat, UploadDir>, id: nat)
    requires AllSound(lib, s0, d0)
    requires forall other :: other != id ==> Get0(s1, other) == Get0(s0, other) && Get0(d1, other) == Get0(d0, other)
    requires id in s1 && s1[id].state == Open ==> id in d1 && Sound(lib, s1[id], d1[id])
    ensures AllSound(lib, s1, d1)
  {
    hide Sound;
    forall other | other in s1 && s1[other].state == Open
      ensures other in d1 && Sound(lib, s1[other], d1[other])
    {
      if other != id { assert Get0(s1, other) == Get0(s0, other) && Get0(d1, other) == Get0(d0, other); }
    }
  }

  /** A session and its directory that both gained the part agree as before. */
  lemma SoundWithPart(
      lib: Library, s: Session, dir: UploadDir, dir': UploadDir, n: nat, part: PartMetadata, data: bytes)
    requires Sound(lib, s, dir) && PartDescribes(lib, part, data)
    requires dir'.parts == dir.parts[n := data]
    requires dir'.session == Some(s.(parts := s.parts[n := part]))
    ensures Sound(lib, s.(parts := s.parts[n := part]), dir')
  {}

  lemma SoundIfSame(lib: Library, s: Session, dir: UploadDir, dir': UploadDir)
    requires Sound(lib, s, dir) && dir'.parts == dir.parts && dir'.session == dir.session
    ensures Sound(lib, s, dir')
  {}

  /** Taking the part out again, or putting the previous one back, is a full undo. */
  lemma UndoPart<T>(m: map<nat, T>, n: nat, x: T)
    ensures n in m ==> m[n := x][n := m[n]] == m
    ensures n !in m ==> m[n := x] - {n} == m
  {
    assert n !in m ==> m[n := x] - {n} == m;
  }

  /** After an undoing the upload is sound exactly if the step that mattered worked, or the bytes were the same. */
  lemma SoundAfterUndo(
      lib: Library, s: Session, dir: UploadDir, dir': UploadDir, n: nat, data: bytes, faults: PartFaults)
    requires Sound(lib, s, dir) && dir'.session == dir.session
    requires dir'.parts == Undone(dir.parts[n := data], n, if n in s.parts then Some(dir.parts[n]) else None, faults)
    ensures Sound(lib, s, dir') <==>
              || UndoWorks(faults, n in s.parts)
              || (n in s.parts && faults.undoRemove && PartDescribes(lib, s.parts[n], data))
    ensures UndoWorks(faults, n in s.parts) ==> dir'.parts == dir.parts
  {
    UndoPart(dir.parts, n, data);
    hide PartDescribes;
    if UndoWorks(faults, n in s.parts) {
      assert dir'.parts == dir.parts;
    } else if !faults.undoRemove {
      assert n in s.parts && n !in dir'.parts;
    } else if n !in s.parts {
      assert n in dir'.parts;
    } else {
      assert dir'.parts[n] == data;
      assert forall k :: k in s.parts && k != n ==> dir'.parts[k] == dir.parts[k];
    }
  }

  /** All open uploads are sound exactly if the one that was worked on is. */
  lemma SoundTogether(
      lib: Library, s0: map<nat, Session>, d0: map<nat, UploadDir>,
      s1: map<nat, Session>, d1: map<nat, UploadDir>, id: nat)
    requires AllSound(lib, s0, d0) && id in s1 && s1[id].state == Open && id in d1
    requires forall other :: other != id ==> Get0(s1, other) == Get0(s0, other) && Get0(d1, other) == Get0(d0, other)
    ensures AllSound(lib, s1, d1) <==> Sound(lib, s1[id], d1[id])
  {
    hide Sound;
    if Sound(lib, s1[id], d1[id]) { OthersStaySound(lib, s0, d0, s1, d1, id); }
  }
}
