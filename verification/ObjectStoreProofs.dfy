/** Whole runs of the object store: refinement of a plain table, and recovery from crashes. */
module ObjectStoreProofs {
  import opened Bytes
  import opened Names
  import opened FileSystem
  import opened ObjectStore

  // ------------------------------------------------------------------- refinement

  /** The store as its clients see it. */
  type Table = map<(bytes, bytes), (ObjectMetadata, Content)>

  datatype StoreOp =
    | CommitOp(data: bytes, metadata: ObjectMetadata)
    | DeleteOp(bucket: bytes, key: bytes)
    | HeadOp(bucket: bytes, key: bytes)
    | OpenOp(bucket: bytes, key: bytes)

  datatype StoreReply =
    | Committed
    | Deleted
    | Headed(metadata: Option<ObjectMetadata>)
    | Opened(object: Option<(ObjectMetadata, Content)>)
    | Failed

  function Lookup(t: Table, bucket: bytes, key: bytes): Option<(ObjectMetadata, Content)> {
    if (bucket, key) in t then Some(t[(bucket, key)]) else None
  }

  function TableAfter(t: Table, op: StoreOp): Table {
    match op
    case CommitOp(data, m) => t[(m.bucket, m.key) := (m, Raw(data))]
    case DeleteOp(b, k) => t - {(b, k)}
    case _ => t
  }

  function TableReply(t: Table, op: StoreOp): StoreReply {
    match op
    case CommitOp(_, _) => Committed
    case DeleteOp(_, _) => Deleted
    case HeadOp(b, k) => Headed(match Lookup(t, b, k) case None => None case Some(v) => Some(v.0))
    case OpenOp(b, k) => Opened(Lookup(t, b, k))
  }

  function TableRun(t: Table, ops: seq<StoreOp>): seq<StoreReply>
    decreases |ops|
  {
    if ops == [] then [] else [TableReply(t, ops[0])] + TableRun(TableAfter(t, ops[0]), ops[1..])
  }

  function Bucket(op: StoreOp): bytes {
    match op case CommitOp(_, m) => m.bucket case DeleteOp(b, _) => b case HeadOp(b, _) => b case OpenOp(b, _) => b
  }

  ghost predicate Injective(sha: bytes -> bytes) {
    forall x, y :: sha(x) == sha(y) ==> x == y
  }

  /** The files show exactly the table; stray bytes or metadata show nothing. */
  ghost predicate Represents(files: Files, sha: bytes -> bytes, t: Table) {
    && (forall b, k :: ValidBucket(b) ==> Visible(files, sha(StorageKey(b, k))) == Lookup(t, b, k))
    && (forall p :: p in files && p.MetaFile? ==> files[p].Json?)
    && (forall p: Path :: p in files ==> !p.InTmp())
  }

  lemma DigestsDiffer(sha: bytes -> bytes, b1: bytes, k1: bytes, b2: bytes, k2: bytes)
    requires Injective(sha) && ValidBucket(b1) && ValidBucket(b2) && (b1, k1) != (b2, k2)
    ensures sha(StorageKey(b1, k1)) != sha(StorageKey(b2, k2))
  {
    if StorageKey(b1, k1) == StorageKey(b2, k2) { StorageKeyInjective(b1, k1, b2, k2); }
  }

  lemma CommitRepresents(was: Files, now: Files, sha: bytes -> bytes, t: Table, id: nat, data: bytes, m: ObjectMetadata)
    requires Injective(sha) && ValidBucket(m.bucket) && Represents(was, sha, t)
    requires SameElsewhere(now, was[TempFile(id, Staged) := Raw(data)], sha(StorageKey(m.bucket, m.key)), id)
    requires Pair(now, sha(StorageKey(m.bucket, m.key))) == (Some(Json(m)), Some(Raw(data)))
    requires NoTemps(now, id)
    ensures Represents(now, sha, TableAfter(t, CommitOp(data, m)))
  {
    var after := TableAfter(t, CommitOp(data, m));
    forall b, k | ValidBucket(b) ensures Visible(now, sha(StorageKey(b, k))) == Lookup(after, b, k) {
      if (b, k) != (m.bucket, m.key) {
        DigestsDiffer(sha, b, k, m.bucket, m.key);
        var e := sha(StorageKey(b, k));
        assert Get(now, MetaFile(e)) == Get(was, MetaFile(e)) && Get(now, DataFile(e)) == Get(was, DataFile(e));
      }
    }
    forall p: Path | p in now ensures !p.InTmp() && (p.MetaFile? ==> now[p].Json?) {
      var d := sha(StorageKey(m.bucket, m.key));
      if p != MetaFile(d) && p != DataFile(d) { assert Get(now, p) == Get(was, p); }
    }
  }

  lemma DeleteRepresents(was: Files, now: Files, sha: bytes -> bytes, t: Table, bucket: bytes, key: bytes)
    requires Injective(sha) && ValidBucket(bucket) && Represents(was, sha, t)
    requires forall p :: p != DataFile(sha(StorageKey(bucket, key))) && p != MetaFile(sha(StorageKey(bucket, key))) ==>
               Get(now, p) == Get(was, p)
    requires MetaFile(sha(StorageKey(bucket, key))) !in now
    ensures Represents(now, sha, TableAfter(t, DeleteOp(bucket, key)))
  {
    var after := TableAfter(t, DeleteOp(bucket, key));
    var d := sha(StorageKey(bucket, key));
    forall b, k | ValidBucket(b) ensures Visible(now, sha(StorageKey(b, k))) == Lookup(after, b, k) {
      if (b, k) != (bucket, key) {
        DigestsDiffer(sha, b, k, bucket, key);
        var e := sha(StorageKey(b, k));
        assert Get(now, MetaFile(e)) == Get(was, MetaFile(e)) && Get(now, DataFile(e)) == Get(was, DataFile(e));
      }
    }
    forall p: Path | p in now ensures !p.InTmp() && (p.MetaFile? ==> now[p].Json?) {
      if p != DataFile(d) { assert p != MetaFile(d); assert Get(now, p) == Get(was, p); }
    }
  }

  /** Files that show what they showed, and no temporaries, represent the same table. */
  lemma SameRepresents(was: Files, now: Files, sha: bytes -> bytes, t: Table)
    requires Represents(was, sha, t)
    requires forall p: Path :: Get(now, p) == Get(was, p)
    ensures Represents(now, sha, t)
  {
    assert forall p :: p in now <==> Get(now, p).Some?;
    assert forall p :: p in was <==> Get(was, p).Some?;
    assert now == was;
  }

  /**
    How the store may answer: as the table does, or, if an operation failed on the way,
    with an error that leaves the table as it was or as the request would have made it.
  */
  ghost predicate Answers(t: Table, op: StoreOp, reply: StoreReply, after: Table, quiet: bool) {
    || (reply == TableReply(t, op) && after == TableAfter(t, op))
    || (!quiet && reply == Failed && (after == t || after == TableAfter(t, op)))
  }

  /** Staging and committing an object, with its temporary file discarded when staging fails. */
  method PerformCommit(store: FileObjectStore, data: bytes, m: ObjectMetadata, ghost t: Table)
    returns (reply: StoreReply, ghost after: Table)
    modifies store.disk
    ensures old(store.disk.ticks) <= store.disk.ticks
    ensures Injective(store.sha) && ValidBucket(m.bucket) && Represents(old(store.disk.files), store.sha, t)
            && OneFault(store.disk.fails, old(store.disk.ticks), store.disk.ticks) ==>
              && Represents(store.disk.files, store.sha, after)
              && Answers(t, CommitOp(data, m), reply, after, store.disk.Quiet(old(store.disk.ticks)))
  {
    hide ValidBucket, StorageKey, Injective;
    ghost var was := store.disk.files;
    ghost var sane := Injective(store.sha) && ValidBucket(m.bucket) && Represents(was, store.sha, t);
    ghost var d := store.Digest(m.bucket, m.key);
    after := t;
    var id := DrawTempId(store.disk.files);
    var r := store.disk.Write(TempFile(id, Staged), Raw(data));
    if r != Done {
      var removed := store.disk.RemoveFileIfExists(TempFile(id, Staged));
      if sane && removed { SameRepresents(was, store.disk.files, store.sha, t); }
      return Failed, t;
    }
    ghost var staged, start := store.disk.files, store.disk.ticks;
    var ok := store.CommitStagedObject(id, m);
    ghost var now := store.disk.files;
    reply := if ok then Committed else Failed;
    if sane && OneFault(store.disk.fails, old(store.disk.ticks), store.disk.ticks) {
      assert OneFault(store.disk.fails, start, store.disk.ticks);
      if Pair(now, d) == (Some(Json(m)), Some(Raw(data))) {
        after := TableAfter(t, CommitOp(data, m));
        CommitRepresents(was, now, store.sha, t, id, data, m);
      } else {
        assert Pair(now, d) == Pair(staged, d);
        forall p: Path ensures Get(now, p) == Get(was, p) {
          if p.TempFile? && p.id == id {
            assert TempFile(id, p.kind) !in now;
          } else if p != DataFile(d) && p != MetaFile(d) {
            assert Get(now, p) == Get(staged, p);
          }
        }
        SameRepresents(was, now, store.sha, t);
      }
    }
  }

  /** One request on any files: with at most one failing operation in it, the store answers as the table may. */
  method Perform(store: FileObjectStore, op: StoreOp, ghost t: Table) returns (reply: StoreReply, ghost after: Table)
    modifies store.disk
    ensures old(store.disk.ticks) <= store.disk.ticks
    ensures Injective(store.sha) && ValidBucket(Bucket(op)) && Represents(old(store.disk.files), store.sha, t)
            && OneFault(store.disk.fails, old(store.disk.ticks), store.disk.ticks) ==>
              && Represents(store.disk.files, store.sha, after)
              && Answers(t, op, reply, after, store.disk.Quiet(old(store.disk.ticks)))
  {
    hide ValidBucket, StorageKey, Injective;
    ghost var was := store.disk.files;
    ghost var sane := Injective(store.sha) && ValidBucket(Bucket(op)) && Represents(was, store.sha, t);
    after := t;
    match op {
      case CommitOp(data, m) => reply, after := PerformCommit(store, data, m, t);
      case DeleteOp(b, k) =>
        var ok := store.DeleteObject(b, k);
        reply := if ok then Deleted else Failed;
        if sane && MetaFile(store.Digest(b, k)) !in store.disk.files {
          DeleteRepresents(was, store.disk.files, store.sha, t, b, k);
          after := TableAfter(t, op);
        }
      case HeadOp(b, k) =>
        var r := store.HeadObject(b, k);
        reply := match r case Good(v) => Headed(v) case _ => Failed;
      case OpenOp(b, k) =>
        var r := store.OpenObject(b, k);
        reply := match r case Good(v) => Opened(v) case _ => Failed;
    }
  }

  /** Over a trace without faults the answers are those of the table. */
  lemma {:induction false} QuietTraceIsTableRun(ops: seq<StoreOp>, replies: seq<StoreReply>, tables: seq<Table>)
    requires |replies| == |ops| && |tables| == |ops| + 1
    requires forall i :: 0 <= i < |ops| ==> Answers(tables[i], ops[i], replies[i], tables[i + 1], true)
    ensures replies == TableRun(tables[0], ops)
    decreases |ops|
  {
    hide TableReply, TableAfter;
    if ops != [] {
      assert Answers(tables[0], ops[0], replies[0], tables[1], true);
      QuietTraceIsTableRun(ops[1..], replies[1..], tables[1..]);
      assert replies == [replies[0]] + replies[1..];
    }
  }

  /**
    Over every sequential run the two-file layout answers as the plain table does. With
    at most one failing file operation in each request, a request may instead fail, and
    then the table is as before it or as it would have made it.
  */
  method RunStore(store: FileObjectStore, ops: seq<StoreOp>, ghost t: Table)
    returns (replies: seq<StoreReply>, ghost tables: seq<Table>, ghost ends: seq<nat>)
    requires Injective(store.sha) && Represents(store.disk.files, store.sha, t)
    requires forall i :: 0 <= i < |ops| ==> ValidBucket(Bucket(ops[i]))
    modifies store.disk
    ensures |replies| == |ops| && |tables| == |ops| + 1 && |ends| == |ops| + 1
    ensures tables[0] == t && ends[0] == old(store.disk.ticks) && ends[|ops|] == store.disk.ticks
    ensures (forall i :: 0 <= i < |ops| ==> OneFault(store.disk.fails, ends[i], ends[i + 1])) ==>
              && Represents(store.disk.files, store.sha, tables[|ops|])
              && forall i :: 0 <= i < |ops| ==>
                   Answers(
                     tables[i], ops[i], replies[i], tables[i + 1], QuietBetween(store.disk.fails, ends[i], ends[i + 1]))
    ensures (forall i :: !store.disk.fails(i)) ==> replies == TableRun(t, ops)
  {
    hide Injective, Represents, ValidBucket, Answers, QuietBetween, OneFault;
    replies, tables, ends := [], [t], [store.disk.ticks];
    for i := 0 to |ops|
      invariant |replies| == i && |tables| == i + 1 && |ends| == i + 1
      invariant tables[0] == t && ends[0] == old(store.disk.ticks) && ends[i] == store.disk.ticks
      invariant (forall k :: 0 <= k < i ==> OneFault(store.disk.fails, ends[k], ends[k + 1])) ==>
                  && Represents(store.disk.files, store.sha, tables[i])
                  && forall k :: 0 <= k < i ==>
                       Answers(
                         tables[k], ops[k], replies[k], tables[k + 1],
                         QuietBetween(store.disk.fails, ends[k], ends[k + 1]))
    {
      ghost var ends0 := ends;
      var reply, after := Perform(store, ops[i], tables[i]);
      replies, tables, ends := replies + [reply], tables + [after], ends + [store.disk.ticks];
      QuietIsBetween(store.disk, ends0[i]);
      assert forall k :: 0 <= k <= i ==> ends[k] == ends0[k];
    }
    if forall i :: !store.disk.fails(i) {
      NoFaultIsQuiet(store.disk.fails);
      QuietTraceIsTableRun(ops, replies, tables);
    }
  }

  lemma QuietIsBetween(disk: Disk, from: nat)
    ensures disk.Quiet(from) == QuietBetween(disk.fails, from, disk.ticks)
  {}

  lemma NoFaultIsQuiet(fails: nat -> bool)
    requires forall i :: !fails(i)
    ensures forall from, to :: OneFault(fails, from, to) && QuietBetween(fails, from, to)
  {}

  // ---------------------------------------------------------------------- crashes

  /** What readers see for the key after a crash in its commit, `done` operations in. */
  function VisibleAfterCrash(
      files: Files, d: bytes, id: nat, m: ObjectMetadata, done: nat): Option<(ObjectMetadata, Content)>
    requires TempFile(id, Staged) in files
  {
    if done <= 5 then Visible(files, d)
    else if done >= 7 then Some((m, files[TempFile(id, Staged)]))
    else
      match Get(files, MetaFile(d))
      case Some(Json(previous)) => Some((previous, files[TempFile(id, Staged)]))
      case _ => None
  }

  /**
    A commit that crashes after `crash` operations, then a restart: the key shows the
    old object, the new object, or, at one point only, new bytes under old metadata;
    every other key shows what it did; bytes and metadata are paired and tmp is empty.
  */
  method CommitCrashReopen(
      files: Files, sha: bytes -> bytes, id: nat, m: ObjectMetadata, crash: nat, tears: nat -> bool)
    returns (after: Files)
    requires StagedAlone(files, id)
    ensures Visible(after, sha(StorageKey(m.bucket, m.key))) ==
            VisibleAfterCrash(files, sha(StorageKey(m.bucket, m.key)), id, m, crash)
    ensures forall e :: e != sha(StorageKey(m.bucket, m.key)) ==> Visible(after, e) == Visible(files, e)
    ensures forall e :: DataFile(e) in after <==> MetaFile(e) in after
    ensures forall p: Path :: p in after ==> !p.InTmp()
    ensures Reopened(after) == after
  {
    var d := sha(StorageKey(m.bucket, m.key));
    var disk := new Disk(files, i => crash <= i, tears);
    var store := new FileObjectStore(disk, sha);
    assert CrashedAt(disk.fails, crash);
    var _ := store.CommitStagedObject(id, m);
    ghost var crashed := disk.files;
    assert PairAfterCrash(files, crashed, d, id, m, crash);
    after := RestartOn(disk.files);
    forall e ensures Visible(after, e) == Visible(crashed, e) { ReopenKeepsVisible(crashed, e); }
    forall e | e != d ensures Visible(crashed, e) == Visible(files, e) {
      assert Get(crashed, MetaFile(e)) == Get(files, MetaFile(e)) &&
          Get(crashed, DataFile(e)) == Get(files, DataFile(e));
    }
    ReopenPairsUp(crashed);
    ReopenIsIdempotent(crashed);
  }

  /** A new process opens the store on whatever files it finds. */
  method RestartOn(files: Files) returns (after: Files)
    ensures after == Reopened(files)
  {
    var disk := new Disk(files, i => false, i => false);
    var _ := Reopen(disk);
    after := disk.files;
  }

  /** After a crash `done` operations in, the key is wholly old or wholly new. */
  ghost predicate AtomicAt(files: Files, d: bytes, id: nat, m: ObjectMetadata, done: nat)
    requires TempFile(id, Staged) in files
  {
    var shown := VisibleAfterCrash(files, d, id, m, done);
    shown == Visible(files, d) || shown == Some((m, files[TempFile(id, Staged)]))
  }

  /** There is nothing to tear: no object under the key, or one whose metadata or bytes the commit repeats. */
  predicate NothingToTear(files: Files, d: bytes, id: nat, m: ObjectMetadata)
    requires TempFile(id, Staged) in files
  {
    || MetaFile(d) !in files
    || !files[MetaFile(d)].Json?
    || files[MetaFile(d)].metadata == m
    || Get(files, DataFile(d)) == Some(files[TempFile(id, Staged)])
  }

  /** The crash is invisible as such exactly unless it hits the one torn moment of an overwrite. */
  lemma CrashIsAtomicUnlessTorn(files: Files, d: bytes, id: nat, m: ObjectMetadata, done: nat)
    requires TempFile(id, Staged) in files
    ensures AtomicAt(files, d, id, m, done) <==> done != 6 || NothingToTear(files, d, id, m)
  {}

  /** A commit survives a crash at every moment exactly when there is nothing to tear. */
  lemma CommitIsCrashSafe(files: Files, d: bytes, id: nat, m: ObjectMetadata)
    requires TempFile(id, Staged) in files
    ensures (forall done :: AtomicAt(files, d, id, m, done)) <==> NothingToTear(files, d, id, m)
  {
    hide AtomicAt, NothingToTear;
    forall done ensures AtomicAt(files, d, id, m, done) <==> done != 6 || NothingToTear(files, d, id, m) {
      CrashIsAtomicUnlessTorn(files, d, id, m, done);
    }
    assert AtomicAt(files, d, id, m, 6) <==> NothingToTear(files, d, id, m);
  }

  /** Overwriting one byte by another, crashed between the renames: the new byte under the old metadata. */
  lemma TornOverwrite(d: bytes, was: ObjectMetadata, m: ObjectMetadata)
    requires was != m
    ensures var files := map[MetaFile(d) := Json(was), DataFile(d) := Raw([0]), TempFile(0, Staged) := Raw([1])];
            VisibleAfterCrash(files, d, 0, m, 6) == Some((was, Raw([1]))) && !AtomicAt(files, d, 0, m, 6)
  {
    var zero: bytes, one: bytes := [0], [1];
    assert zero[0] != one[0];
  }

  /** A delete that crashes anywhere leaves the key as it was or gone, for good after a restart. */
  method DeleteCrashReopen(files: Files, sha: bytes -> bytes, bucket: bytes, key: bytes, crash: nat)
    returns (after: Files)
    ensures var d := sha(StorageKey(bucket, key));
            if crash == 0 then Visible(after, d) == Visible(files, d)
            else MetaFile(d) !in after && DataFile(d) !in after
    ensures forall e :: e != sha(StorageKey(bucket, key)) ==> Visible(after, e) == Visible(files, e)
    ensures forall e :: DataFile(e) in after <==> MetaFile(e) in after
    ensures Reopened(after) == after
  {
    var d := sha(StorageKey(bucket, key));
    var disk := new Disk(files, i => crash <= i, i => false);
    var store := new FileObjectStore(disk, sha);
    var _ := store.DeleteObject(bucket, key);
    ghost var crashed := disk.files;
    after := RestartOn(disk.files);
    forall e ensures Visible(after, e) == Visible(crashed, e) { ReopenKeepsVisible(crashed, e); }
    forall e | e != d ensures Visible(crashed, e) == Visible(files, e) {
      assert Get(crashed, MetaFile(e)) == Get(files, MetaFile(e)) &&
          Get(crashed, DataFile(e)) == Get(files, DataFile(e));
    }
    ReopenPairsUp(crashed);
    ReopenIsIdempotent(crashed);
  }
}
