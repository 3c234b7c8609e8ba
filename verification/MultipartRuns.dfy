/** Whole runs of the multipart store, and what a restart makes of what they leave. */
module MultipartRuns {
  import opened Bytes
  import opened Checksums
  import opened FileSystem
  import opened ObjectStore
  import opened Multipart
  import opened MultipartStore

  // ------------------------------------------------------------------- requests

  /** Requests as they arrive, each with the faults it meets. */
  datatype UploadOp =
    | CreateOp(bucket: bytes, key: bytes, initiated: int, described: bytes, noDir: bool, persist: StepFault)
    | PartOp(id: nat, number: nat, data: bytes, etag: bytes, checksums: map<bytes, bytes>, faults: PartFaults)
    | AbortOp(id: nat, persist: StepFault, removal: Removal)
    | CompleteOp(id: nat, request: CompleteRequest, completeFaults: CompleteFaults)

  datatype UploadReply =
    | Created(id: nat)
    | NotCreated
    | PartReply(result: PartResult)
    | AbortReply(ok: bool)
    | Published(metadata: ObjectMetadata)
    | NotPublished(error: CompleteError)

  // --------------------------------------------------- what clients have uploaded

  /** The sessions, and the part contents of those that are open. */
  datatype Uploads = Uploads(sessions: map<nat, Session>, parts: map<nat, map<nat, bytes>>) {
    predicate Open(id: nat) { id in sessions && sessions[id].state == UploadState.Open && id in parts }
  }

  const NO_UPLOADS: Uploads := Uploads(map[], map[])

  function View(sessions: map<nat, Session>, dirs: map<nat, UploadDir>): Uploads {
    Uploads(sessions, map id | id in sessions && sessions[id].state == Open && id in dirs :: dirs[id].parts)
  }

  function PartOf(lib: Library, op: UploadOp): PartMetadata
    requires op.PartOp?
  {
    PartMetadata(|op.data|, op.etag, lib.digest(Md5, op.data), op.checksums)
  }

  lemma DescribedPart(lib: Library, op: UploadOp)
    requires op.PartOp?
    ensures PartDescribes(lib, PartOf(lib, op), op.data)
  {}

  /** What a request that got this reply changed. */
  function Effect(lib: Library, u: Uploads, op: UploadOp, reply: UploadReply): Uploads {
    match op
    case CreateOp(bucket, key, initiated, described, _, _) =>
      if !reply.Created? then u
      else Uploads(
        u.sessions[reply.id := Session(bucket, key, initiated, Open, described, map[])],
        u.parts[reply.id := map[]])
    case PartOp(id, n, data, _, _, _) =>
      if !(reply.PartReply? && Recorded(reply.result) && u.Open(id)) then u
      else
        var files: map<nat, bytes> := u.parts[id][n := data];
        Uploads(
          u.sessions[id := u.sessions[id].(parts := u.sessions[id].parts[n := PartOf(lib, op)])],
          u.parts[id := files])
    case AbortOp(id, persist, _) =>
      if !(u.Open(id) && persist == NoFault) then u
      else if reply == AbortReply(true) then Uploads(u.sessions - {id}, u.parts - {id})
      else Uploads(u.sessions[id := u.sessions[id].(state := Aborted)], u.parts - {id})
    case CompleteOp(id, _, _) =>
      if reply.Published? then Uploads(u.sessions - {id}, u.parts - {id}) else u
  }

  /** The replies a request may get; `quiet` if the object store's disk did not fail meanwhile. */
  ghost predicate Answers(lib: Library, u: Uploads, op: UploadOp, reply: UploadReply, quiet: bool) {
    match op
    case CreateOp(_, _, _, _, noDir, persist) =>
      if noDir || persist != NoFault then reply == NotCreated else reply.Created? && reply.id !in u.sessions
    case PartOp(id, n, _, _, _, faults) =>
      reply == PartReply(PartOutcome(u.Open(id), faults, u.Open(id) && n in u.sessions[id].parts))
    case AbortOp(id, persist, removal) =>
      reply == AbortReply(u.Open(id) && persist == NoFault && removal == Removed)
    case CompleteOp(id, c, _) =>
      match reply
      case Published(m) => u.Open(id) && exists final :: CompletedObject(lib, u.sessions[id], u.parts[id], c, m, final)
      case NotPublished(e) =>
        && (e == NoSuchUpload <==> !u.Open(id))
        && (quiet && u.Open(id) ==> !Completable(lib, u.sessions[id], u.parts[id], c))
      case _ => false
  }

  // ---------------------------------------------------------------- one request

  lemma OpenInView(m: FileMultipartStore, id: nat)
    requires m.Valid()
    ensures m.IsOpen(id) <==> View(m.sessions, m.dirs).Open(id)
    ensures m.IsOpen(id) ==> id in m.dirs && View(m.sessions, m.dirs).parts[id] == m.dirs[id].parts
  {
    hide Sound;
  }

  /** The view after an operation on one upload, told from its directory and the rest being as before. */
  lemma ViewAfter(
      s0: map<nat, Session>, d0: map<nat, UploadDir>, s1: map<nat, Session>, d1: map<nat, UploadDir>, id: nat)
    requires forall other :: other != id ==> Get0(s1, other) == Get0(s0, other) && Get0(d1, other) == Get0(d0, other)
    ensures var u, v := View(s0, d0), View(s1, d1);
            v == Uploads(
              s1, if id in s1 && s1[id].state == Open && id in d1 then u.parts[id := d1[id].parts] else u.parts - {id})
  {
    var u, v := View(s0, d0), View(s1, d1);
    var w := if id in s1 && s1[id].state == Open && id in d1 then u.parts[id := d1[id].parts] else u.parts - {id};
    forall k ensures k in v.parts <==> k in w {
      assert k != id ==> Get0(s1, k) == Get0(s0, k) && Get0(d1, k) == Get0(d0, k);
    }
    forall k | k in w ensures v.parts[k] == w[k] {
      assert k != id ==> Get0(s1, k) == Get0(s0, k) && Get0(d1, k) == Get0(d0, k);
    }
  }

  method PerformCreate(m: FileMultipartStore, op: UploadOp) returns (reply: UploadReply)
    requires m.Valid() && op.CreateOp?
    modifies m
    ensures m.Valid()
    ensures Answers(m.lib, old(View(m.sessions, m.dirs)), op, reply, true)
    ensures View(m.sessions, m.dirs) == Effect(m.lib, old(View(m.sessions, m.dirs)), op, reply)
  {
    hide Sound;
    ghost var s0, d0 := m.sessions, m.dirs;
    var id := DrawId(m.sessions.Keys + m.dirs.Keys);
    var ok := m.CreateUpload(id, op.bucket, op.key, op.initiated, op.described, op.noDir, op.persist);
    reply := if ok then Created(id) else NotCreated;
    ViewAfter(s0, d0, m.sessions, m.dirs, id);
    assert id !in View(s0, d0).parts;
    assert View(s0, d0).parts - {id} == View(s0, d0).parts;
  }

  /** A part's bytes go to a new temporary file of its upload. */
  method StagePart(m: FileMultipartStore, id: nat, data: bytes) returns (temp: nat, backup: nat)
    requires m.Valid() && m.IsOpen(id)
    modifies m`dirs
    ensures m.Valid() && id in old(m.dirs) && id in m.dirs && m.dirs[id].parts == old(m.dirs[id].parts)
    ensures Get0(m.dirs[id].temps, temp) == Some(data) && backup !in m.dirs[id].temps
    ensures forall other :: other != id ==> Get0(m.dirs, other) == Get0(old(m.dirs), other)
  {
    ghost var d0 := m.dirs;
    temp := DrawId(m.dirs[id].temps.Keys);
    backup := DrawId(m.dirs[id].temps.Keys + {temp});
    m.dirs := m.dirs[id := m.dirs[id].(temps := m.dirs[id].temps[temp := data])];
    SoundIfSame(m.lib, m.sessions[id], d0[id], m.dirs[id]);
    OthersStaySound(m.lib, m.sessions, d0, m.sessions, m.dirs, id);
  }

  /** The part is written to a temporary file of the upload, then committed. */
  method PerformPart(m: FileMultipartStore, op: UploadOp) returns (reply: UploadReply)
    requires m.Valid() && op.PartOp? && !op.faults.undoRemove && !op.faults.undoRename
    modifies m
    ensures m.Valid()
    ensures Answers(m.lib, old(View(m.sessions, m.dirs)), op, reply, true)
    ensures View(m.sessions, m.dirs) == Effect(m.lib, old(View(m.sessions, m.dirs)), op, reply)
  {
    ghost var s0, d0 := m.sessions, m.dirs;
    var id := op.id;
    OpenInView(m, id);
    hide Sound, AllSound;
    if !m.IsOpen(id) { return PartReply(PartNoSuchUpload); }
    var temp, backup := StagePart(m, id, op.data);
    ghost var staged := m.dirs;
    hide PartDescribes, Undone, FileState;
    assert PartDescribes(m.lib, PartOf(m.lib, op), op.data) by { DescribedPart(m.lib, op); }
    var result := m.CommitPart(id, op.number, temp, backup, PartOf(m.lib, op), op.faults);
    forall other | other != id ensures Get0(m.dirs, other) == Get0(d0, other) {
      assert Get0(m.dirs, other) == Get0(staged, other) == Get0(d0, other);
    }
    reply := PartReply(result);
    PartEffect(m.lib, s0, d0, m.sessions, m.dirs, op, result);
  }

  /** A part commit seen through the view. */
  lemma PartEffect(
      lib: Library, s0: map<nat, Session>, d0: map<nat, UploadDir>,
      s1: map<nat, Session>, d1: map<nat, UploadDir>, op: UploadOp, result: PartResult)
    requires op.PartOp? && op.id in s0 && s0[op.id].state == Open && op.id in d0 && op.id in d1
    requires forall other :: other != op.id ==> Get0(d1, other) == Get0(d0, other)
    requires !Recorded(result) ==> s1 == s0 && d1[op.id].parts == d0[op.id].parts
    requires Recorded(result) ==>
               && s1 == s0[op.id := s0[op.id].(parts := s0[op.id].parts[op.number := PartOf(lib, op)])]
               && d1[op.id].parts == d0[op.id].parts[op.number := op.data]
    ensures View(s1, d1) == Effect(lib, View(s0, d0), op, PartReply(result))
  {
    ViewAfter(s0, d0, s1, d1, op.id);
    var u := View(s0, d0);
    assert u.parts[op.id := u.parts[op.id]] == u.parts;
  }

  method PerformAbort(m: FileMultipartStore, op: UploadOp) returns (reply: UploadReply)
    requires m.Valid() && op.AbortOp?
    modifies m
    ensures m.Valid()
    ensures Answers(m.lib, old(View(m.sessions, m.dirs)), op, reply, true)
    ensures View(m.sessions, m.dirs) == Effect(m.lib, old(View(m.sessions, m.dirs)), op, reply)
  {
    hide Sound;
    ghost var s0, d0 := m.sessions, m.dirs;
    OpenInView(m, op.id);
    var ok := m.AbortUpload(op.id, op.persist, op.removal);
    reply := AbortReply(ok);
    ViewAfter(s0, d0, m.sessions, m.dirs, op.id);
  }

  /** A completion, with its temporary names drawn anew. */
  method PerformComplete(m: FileMultipartStore, store: FileObjectStore, op: UploadOp) returns (reply: UploadReply)
    requires m.Valid() && op.CompleteOp?
    modifies m, store.disk
    ensures m.Valid() && old(store.disk.ticks) <= store.disk.ticks
    ensures Answers(m.lib, old(View(m.sessions, m.dirs)), op, reply, store.disk.Quiet(old(store.disk.ticks)))
    ensures View(m.sessions, m.dirs) == Effect(m.lib, old(View(m.sessions, m.dirs)), op, reply)
  {
    hide Sound, CompletedObject, Completable, KeyShows, Visible, NoTemps;
    ghost var s0, d0, u := m.sessions, m.dirs, View(m.sessions, m.dirs);
    OpenInView(m, op.id);
    var oid := DrawTempId(store.disk.files);
    var rid := DrawReplacementId(store.disk.files);
    var r, attempt, final := m.CompleteUpload(store, op.id, op.request, oid, rid, op.completeFaults);
    reply := match r case Ok(done) => Published(done) case Err(e) => NotPublished(e);
    ViewAfter(s0, d0, m.sessions, m.dirs, op.id);
    if r.Ok? {
      assert CompletedObject(m.lib, u.sessions[op.id], u.parts[op.id], op.request, r.value, final);
    } else if u.Open(op.id) {
      assert u.parts[op.id := u.parts[op.id]] == u.parts;
    } else {
      assert u.parts - {op.id} == u.parts;
    }
  }

  method DrawReplacementId(files: Files) returns (rid: nat)
    ensures ReplaceFile(rid) !in files
  {
    var taken := set p: Path | p in files && p.ReplaceFile? :: p.id;
    assert forall k :: ReplaceFile(k) in files ==> k in taken;
    rid := DrawId(taken);
  }

  /** The undo steps of every part commit work; `CommitPart` says what happens when they do not. */
  predicate Undoable(op: UploadOp) {
    op.PartOp? ==> !op.faults.undoRemove && !op.faults.undoRename
  }

  /** One request, whatever fails in it, is answered as it may be and changes what that answer says. */
  method PerformUpload(m: FileMultipartStore, store: FileObjectStore, op: UploadOp) returns (reply: UploadReply)
    requires m.Valid() && Undoable(op)
    modifies m, store.disk
    ensures m.Valid() && old(store.disk.ticks) <= store.disk.ticks
    ensures Answers(m.lib, old(View(m.sessions, m.dirs)), op, reply, store.disk.Quiet(old(store.disk.ticks)))
    ensures View(m.sessions, m.dirs) == Effect(m.lib, old(View(m.sessions, m.dirs)), op, reply)
  {
    hide CompletedObject, Completable, AllSound, Effect, View;
    match op {
      case CreateOp(_, _, _, _, _, _) => reply := PerformCreate(m, op);
      case PartOp(_, _, _, _, _, _) => reply := PerformPart(m, op);
      case AbortOp(_, _, _) => reply := PerformAbort(m, op);
      case CompleteOp(_, _, _) => reply := PerformComplete(m, store, op);
    }
  }

  // ----------------------------------------------------------------- whole runs

  /**
    A history of uploads: `trace` starts with none, each reply is one that the uploads
    before it admit, and each step changes them as that reply says. Request i used the
    object store's disk from tick `ends[i]` up to `ends[i + 1]`.
  */
  ghost predicate History(
      lib: Library, fails: nat -> bool, ops: seq<UploadOp>, replies: seq<UploadReply>,
      trace: seq<Uploads>, ends: seq<nat>)
  {
    && |replies| <= |ops| && |trace| == |replies| + 1 && |ends| == |replies| + 1
    && trace[0] == NO_UPLOADS
    && forall i :: 0 <= i < |replies| ==>
         && ends[i] <= ends[i + 1]
         && Answers(lib, trace[i], ops[i], replies[i], QuietBetween(fails, ends[i], ends[i + 1]))
         && trace[i + 1] == Effect(lib, trace[i], ops[i], replies[i])
  }

  lemma HistoryGoesOn(
      lib: Library, fails: nat -> bool, ops: seq<UploadOp>, replies: seq<UploadReply>,
      trace: seq<Uploads>, ends: seq<nat>, reply: UploadReply, u: Uploads, end: nat)
    requires History(lib, fails, ops, replies, trace, ends) && |replies| < |ops|
    requires var i := |replies|;
             && ends[i] <= end
             && Answers(lib, trace[i], ops[i], reply, QuietBetween(fails, ends[i], end))
             && u == Effect(lib, trace[i], ops[i], reply)
    ensures History(lib, fails, ops, replies + [reply], trace + [u], ends + [end])
  {
    hide Answers, Effect, QuietBetween;
  }

  /**
    Every run of requests on a new store, with any faults: each reply is one that the
    uploads so far admit, each open upload holds exactly the parts that the replies
    acknowledged, and memory, session file and part files agree about them.
  */
  method RunUploads(lib: Library, store: FileObjectStore, ops: seq<UploadOp>)
    returns (m: FileMultipartStore, replies: seq<UploadReply>, ghost trace: seq<Uploads>, ghost ends: seq<nat>)
    requires forall i :: 0 <= i < |ops| ==> Undoable(ops[i])
    modifies store.disk
    ensures fresh(m) && m.lib == lib && m.Valid()
    ensures |replies| == |ops| && History(lib, store.disk.fails, ops, replies, trace, ends)
    ensures trace[|ops|] == View(m.sessions, m.dirs)
    ensures ends[0] == old(store.disk.ticks) && ends[|ops|] == store.disk.ticks
  {
    m := new FileMultipartStore(lib);
    replies, trace, ends := [], [NO_UPLOADS], [store.disk.ticks];
    assert View(m.sessions, m.dirs).parts == map[];
    hide Answers, Effect, AllSound, QuietBetween, View;
    for i := 0 to |ops|
      invariant fresh(m) && m.lib == lib && m.Valid()
      invariant |replies| == i && History(lib, store.disk.fails, ops, replies, trace, ends)
      invariant trace[i] == View(m.sessions, m.dirs)
      invariant ends[0] == old(store.disk.ticks) && ends[i] == store.disk.ticks
    {
      ghost var start := store.disk.ticks;
      var reply := PerformUpload(m, store, ops[i]);
      QuietIsBetween(store.disk, start);
      ghost var u := View(m.sessions, m.dirs);
      HistoryGoesOn(lib, store.disk.fails, ops, replies, trace, ends, reply, u, store.disk.ticks);
      replies, trace, ends := replies + [reply], trace + [u], ends + [store.disk.ticks];
    }
  }

  lemma QuietIsBetween(disk: Disk, from: nat)
    ensures disk.Quiet(from) == QuietBetween(disk.fails, from, disk.ticks)
  {}

  // -------------------------------------------------------------------- restarts

  /** `incomplete_upload_is_expired`: older than the configured age, if one is configured. */
  predicate Expired(s: Session, now: int, maxAge: Option<nat>) {
    maxAge.Some? && now - s.initiated > maxAge.value
  }

  /** An upload expires one tick after it has reached the age, stays expired, and never expires without an age. */
  lemma ExpiryIsByAge(s: Session, age: nat, later: nat)
    ensures !Expired(s, s.initiated + age, Some(age)) && Expired(s, s.initiated + age + 1 + later, Some(age))
    ensures forall now :: now <= s.initiated + age ==> !Expired(s, now, Some(age))
    ensures forall now :: !Expired(s, now, None)
  {}

  /** The sessions a restart at `now` takes up again. */
  function Reloaded(dirs: map<nat, UploadDir>, now: int, maxAge: Option<nat>): map<nat, Session> {
    map id | id in dirs && FileState(dirs, id) == Some(Open) && !Expired(dirs[id].session.value, now, maxAge)
      :: dirs[id].session.value
  }

  /** The loop over upload directories; those without a session file are passed over. */
  method LoadSessions(dirs: map<nat, UploadDir>, now: int, maxAge: Option<nat>) returns (sessions: map<nat, Session>)
    ensures sessions == Reloaded(dirs, now, maxAge)
  {
    sessions := map[];
    var todo := dirs.Keys;
    while todo != {}
      invariant todo <= dirs.Keys
      invariant forall id :: id in sessions <==> id in Reloaded(dirs, now, maxAge) && id !in todo
      invariant forall id :: id in sessions ==> sessions[id] == Reloaded(dirs, now, maxAge)[id]
      decreases todo
    {
      var id :| id in todo;
      todo := todo - {id};
      match dirs[id].session {
        case None =>
        case Some(session) =>
          if session.state == Open && !Expired(session, now, maxAge) { sessions := sessions[id := session]; }
      }
    }
  }

  /** An open upload is taken up again, unchanged and sound, exactly if its file says Open and it has not expired. */
  lemma RestartKeepsOpenUploads(
      lib: Library, sessions: map<nat, Session>, dirs: map<nat, UploadDir>, id: nat, now: int, maxAge: Option<nat>)
    requires AllSound(lib, sessions, dirs) && id in sessions && sessions[id].state == Open
    ensures id in Reloaded(dirs, now, maxAge) <==>
              FileState(dirs, id) == Some(Open) && !Expired(sessions[id], now, maxAge)
    ensures id in Reloaded(dirs, now, maxAge) ==>
              Reloaded(dirs, now, maxAge)[id] == sessions[id] && Sound(lib, Reloaded(dirs, now, maxAge)[id], dirs[id])
  {
    assert Sound(lib, sessions[id], dirs[id]);
  }

  /**
    A completion of an upload whose file said Open, then a restart. A failed completion
    loses the upload exactly if it has expired, or the claim was written and giving it
    back was not. A successful one brings it back exactly if nothing of it was recorded.
  */
  method CompleteThenRestart(
      m: FileMultipartStore, store: FileObjectStore, id: nat, c: CompleteRequest, oid: nat, rid: nat,
      faults: CompleteFaults, now: int, maxAge: Option<nat>)
    returns (r: Result<ObjectMetadata, CompleteError>, sessions: map<nat, Session>)
    requires m.Valid() && m.IsOpen(id) && FileState(m.dirs, id) == Some(Open)
    requires NoTemps(store.disk.files, oid) && ReplaceFile(rid) !in store.disk.files
    modifies m, store.disk
    ensures r.Err? ==>
              (id in sessions <==>
                !Expired(old(m.sessions[id]), now, maxAge) && (faults.claim != NoFault || faults.restore == NoFault))
    ensures r.Err? && id in sessions ==>
              sessions[id] == old(m.sessions[id]) && id in m.dirs && Sound(m.lib, sessions[id], m.dirs[id])
    ensures r.Ok? ==>
              (id in sessions <==> !Expired(old(m.sessions[id]), now, maxAge) && NothingRecorded(faults))
  {
    assert Sound(m.lib, m.sessions[id], m.dirs[id]);
    hide CompletedObject, Completable, KeyShows, Visible, NoTemps, Sound;
    var result, _, _ := m.CompleteUpload(store, id, c, oid, rid, faults);
    r := result;
    sessions := LoadSessions(m.dirs, now, maxAge);
    if r.Err? { RestartKeepsOpenUploads(m.lib, m.sessions, m.dirs, id, now, maxAge); }
  }

  /** A completion that names a missing part, claimed on disk and not given back there: open now, lost by a restart. */
  method ForgottenUpload(lib: Library, store: FileObjectStore, now: int)
    returns (m: FileMultipartStore, sessions: map<nat, Session>)
    modifies store.disk
    ensures m.IsOpen(0) && FileState(m.dirs, 0) == Some(Completing)
    ensures sessions == Reloaded(m.dirs, now, None) && 0 !in sessions
  {
    hide KeyShows, Visible, NoTemps, Sound, ChecksumsHold;
    m := new FileMultipartStore(lib);
    var created := m.CreateUpload(0, [97], [98], now, [], false, NoFault);
    var oid := DrawTempId(store.disk.files);
    var rid := DrawReplacementId(store.disk.files);
    var c := CompleteRequest([CompletedPart(1, [])], ChecksumRequest(map[], map[]), Limits(0, 0), 1, 1, []);
    var faults := CompleteFaults(NoFault, FailsFirst, NoFault, false, Removed);
    ghost var s := m.sessions[0];
    var r, _, _ := m.CompleteUpload(store, 0, c, oid, rid, faults);
    assert c.parts[0].number !in s.parts && !Requestable(s.parts, c.parts, c.limits);
    sessions := LoadSessions(m.dirs, now, None);
  }
}
