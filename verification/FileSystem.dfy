/**
  The storage directory as a map from names to contents, with a fault oracle. Every
  operation takes one tick; the operation at tick i fails when `fails(i)`. A failing
  operation changes nothing, except that a failing write may leave a torn file.
  A crash is the oracle that fails every tick from some point on.
*/
module FileSystem {
  import opened Bytes

  datatype ObjectMetadata = ObjectMetadata(
    bucket: bytes, key: bytes, size: nat, etag: bytes, checksums: map<bytes, bytes>, described: bytes)

  datatype TempKind = Staged | MetadataTmp | ObjectBackup | MetadataBackup

  /** Published bytes and metadata, a commit's temporaries, and a processor's replacement file. */
  datatype Path =
    | DataFile(digest: bytes)
    | MetaFile(digest: bytes)
    | TempFile(id: nat, kind: TempKind)
    | ReplaceFile(id: nat)
  {
    predicate InTmp() { TempFile? || ReplaceFile? }
  }

  /** File contents; JSON is kept decoded. */
  datatype Content = Raw(data: bytes) | Json(metadata: ObjectMetadata) | Torn

  type Files = map<Path, Content>

  datatype IoResult = Done | NotFound | Broken

  function Get(files: Files, p: Path): Option<Content> {
    if p in files then Some(files[p]) else None
  }

  function Put(files: Files, p: Path, c: Option<Content>): Files {
    match c
    case None => files - {p}
    case Some(content) => files[p := content]
  }

  /** A random identifier: all that matters of it is that nothing uses it yet. */
  method DrawId(taken: set<nat>) returns (id: nat)
    ensures id !in taken
  {
    id := 0;
    var left := taken;
    while left != {}
      invariant left <= taken && forall x :: x in taken && x !in left ==> x < id
      decreases left
    {
      var x :| x in left;
      left := left - {x};
      if x >= id { id := x + 1; }
    }
  }

  ghost predicate QuietBetween(fails: nat -> bool, from: nat, to: nat) {
    forall i :: from <= i < to ==> !fails(i)
  }

  class Disk {
    var files: Files
    var ticks: nat
    const fails: nat -> bool
    const tears: nat -> bool

    constructor (files: Files, fails: nat -> bool, tears: nat -> bool)
      ensures this.files == files && ticks == 0 && this.fails == fails && this.tears == tears
    {
      this.files, ticks, this.fails, this.tears := files, 0, fails, tears;
    }

    /** No operation failed from tick `from` up to now. */
    ghost predicate Quiet(from: nat)
      reads this
    {
      forall i :: from <= i < ticks ==> !fails(i)
    }

    method CreateDir() returns (r: IoResult)
      modifies this`ticks
      ensures ticks == old(ticks) + 1
      ensures r == if fails(old(ticks)) then Broken else Done
    {
      r := if fails(ticks) then Broken else Done;
      ticks := ticks + 1;
    }

    /** An operation that changes no file: opening, reading or filling a buffer. */
    method Access() returns (ok: bool)
      modifies this`ticks
      ensures ticks == old(ticks) + 1
      ensures ok <==> !fails(old(ticks))
    {
      ok := !fails(ticks);
      ticks := ticks + 1;
    }

    /** The ticks of `n` operations made elsewhere under the same oracle. */
    method Spend(n: nat)
      modifies this`ticks
      ensures ticks == old(ticks) + n
    {
      ticks := ticks + n;
    }

    method Write(p: Path, c: Content) returns (r: IoResult)
      modifies this
      ensures ticks == old(ticks) + 1
      ensures !fails(old(ticks)) ==> r == Done && files == old(files)[p := c]
      ensures fails(old(ticks)) ==> r == Broken
      ensures fails(old(ticks)) ==> files == if tears(old(ticks)) then old(files)[p := Torn] else old(files)
    {
      if fails(ticks) {
        r := Broken;
        if tears(ticks) { files := files[p := Torn]; }
      } else {
        r := Done;
        files := files[p := c];
      }
      ticks := ticks + 1;
    }

    method HardLink(source: Path, target: Path) returns (r: IoResult)
      modifies this
      ensures ticks == old(ticks) + 1
      ensures r == if fails(old(ticks)) || (source in old(files) && target in old(files)) then Broken
                   else if source in old(files) then Done else NotFound
      ensures files == if r == Done then old(files)[target := old(files)[source]] else old(files)
    {
      if fails(ticks) { r := Broken; }
      else if source !in files { r := NotFound; }
      else if target in files { r := Broken; }
      else { r := Done; files := files[target := files[source]]; }
      ticks := ticks + 1;
    }

    method Rename(source: Path, target: Path) returns (r: IoResult)
      requires source != target
      modifies this
      ensures ticks == old(ticks) + 1
      ensures r == if fails(old(ticks)) then Broken else if source in old(files) then Done else NotFound
      ensures files == if r == Done then (old(files) - {source})[target := old(files)[source]] else old(files)
    {
      if fails(ticks) { r := Broken; }
      else if source !in files { r := NotFound; }
      else { r := Done; files := (files - {source})[target := files[source]]; }
      ticks := ticks + 1;
    }

    method Remove(p: Path) returns (r: IoResult)
      modifies this
      ensures ticks == old(ticks) + 1
      ensures r == if fails(old(ticks)) then Broken else if p in old(files) then Done else NotFound
      ensures files == if r == Done then old(files) - {p} else old(files)
    {
      if fails(ticks) { r := Broken; }
      else if p !in files { r := NotFound; }
      else { r := Done; files := files - {p}; }
      ticks := ticks + 1;
    }

    /** Reading or looking at a file; `c` is its content when the result is Done. */
    method Read(p: Path) returns (r: IoResult, c: Content)
      modifies this`ticks
      ensures ticks == old(ticks) + 1
      ensures r == if fails(old(ticks)) then Broken else if p in files then Done else NotFound
      ensures r == Done ==> c == files[p]
    {
      c := Torn;
      if fails(ticks) { r := Broken; }
      else if p !in files { r := NotFound; }
      else { r := Done; c := files[p]; }
      ticks := ticks + 1;
    }

    // --------------------------------------------------- src/storage/fs_util.rs

    /** A file already missing counts as removed. */
    method RemoveFileIfExists(p: Path) returns (ok: bool)
      modifies this
      ensures ticks == old(ticks) + 1
      ensures ok <==> !fails(old(ticks))
      ensures files == if ok then old(files) - {p} else old(files)
    {
      var r := Remove(p);
      ok := r != Broken;
      assert p !in old(files) ==> old(files) - {p} == old(files);
    }

    /** Some(true) when a backup was made, Some(false) when there was nothing to back up. */
    method BackupExistingFile(source: Path, backup: Path) returns (r: Option<bool>)
      modifies this
      ensures ticks == old(ticks) + 1
      ensures r == if fails(old(ticks)) || (source in old(files) && backup in old(files)) then None
                   else Some(source in old(files))
      ensures files == if r == Some(true) then old(files)[backup := old(files)[source]] else old(files)
    {
      var link := HardLink(source, backup);
      r := match link case Done => Some(true) case NotFound => Some(false) case Broken => None;
    }

    method RemoveBackupFile(p: Path, wasMade: bool) returns (ok: bool)
      modifies this
      ensures old(ticks) <= ticks
      ensures ok <==> Quiet(old(ticks))
      ensures files == if wasMade && ok then old(files) - {p} else old(files)
    {
      ok := true;
      if wasMade { ok := RemoveFileIfExists(p); }
    }

    /** Best effort: errors are ignored, so it restores only what its own operations reach. */
    method RollbackPublishedFile(p: Path, backup: Path, hadPrevious: bool)
      requires p != backup
      modifies this
      ensures old(ticks) <= ticks
      ensures Quiet(old(ticks)) ==>
                files == if hadPrevious && backup in old(files)
                         then (old(files) - {backup})[p := old(files)[backup]] else old(files) - {p}
      ensures forall q :: q != p && q != backup ==> Get(files, q) == Get(old(files), q)
      ensures !hadPrevious ==> Get(files, p) == None || files == old(files)
      ensures (forall i :: old(ticks) <= i ==> fails(i)) ==> files == old(files)
    {
      var _ := RemoveFileIfExists(p);
      if hadPrevious { var _ := Rename(backup, p); }
    }
  }
}
