/**
 * The files the daemon hands out and takes back: an abstract file table
 * with `chown` and delete, `set_file_ownership` (src/shared/shared.rs) and
 * the reaper the daemon spawns after a `DecryptFile` reply
 * (src/daemon/server.rs).
 */
module Files {
  import opened Wrappers
  import opened Text
  import opened Warn

  datatype Owner = Owner(uid: u32, gid: u32)

  class FileTable {
    /** The files that exist, each with its owner. */
    var files: map<string, Owner>
    /** Paths on which `chown` is refused (the caller lacks the right). */
    var locked: set<string>

    constructor (files: map<string, Owner>, locked: set<string>)
      ensures this.files == files && this.locked == locked
    {
      this.files := files;
      this.locked := locked;
    }

    /** `chown`: succeeds on an existing file the caller may change. */
    method Chown(path: string, owner: Owner) returns (ok: bool)
      modifies this
      ensures ok <==> path in old(files) && path !in locked
      ensures files == if ok then old(files)[path := owner] else old(files)
      ensures locked == old(locked)
    {
      ok := path in files && path !in locked;
      if ok {
        files := files[path := owner];
      }
    }

    /** `del_file`: removes the file; fails when there is none. */
    method Delete(path: string) returns (ok: bool)
      modifies this
      ensures ok <==> path in old(files)
      ensures files == old(files) - {path}
      ensures locked == old(locked)
    {
      ok := path in files;
      files := files - {path};
    }
  }

  const ChownFailed: ErrorItem := ErrorItem(Unauthorized, "chown failed")

  /** `set_file_ownership`: Ok exactly when `chown` succeeds; otherwise the
      given errors plus one `Unauthorized` "chown failed" item. */
  method SetFileOwnership(table: FileTable, path: string, uid: u32, gid: u32, errors: seq<ErrorItem>)
    returns (r: Result<(), seq<ErrorItem>>)
    modifies table
    ensures r.Ok? <==> path in old(table.files) && path !in table.locked
    ensures r.Err? ==> r.error == errors + [ChownFailed]
    ensures table.files == if r.Ok? then old(table.files)[path := Owner(uid, gid)] else old(table.files)
    ensures table.locked == old(table.locked)
  {
    var ok := table.Chown(path, Owner(uid, gid));
    if ok {
      return Ok(());
    }
    return Err(errors + [ChownFailed]);
  }

  /** The table after a reaper has run on `path`: the file is gone if the
      service could take it back, and the table is as it was otherwise. */
  function Reaped(files: map<string, Owner>, locked: set<string>, path: string): map<string, Owner>
  {
    if path in files && path !in locked then files - {path} else files
  }

  /** The reaper: take the temporary file back for the service, and delete
      it only if that succeeded. The sleep before it is not modelled. */
  method Reap(table: FileTable, path: string, service: Owner) returns (deleted: bool)
    modifies table
    ensures deleted <==> path in old(table.files) && path !in table.locked
    ensures table.files == Reaped(old(table.files), old(table.locked), path)
    ensures table.locked == old(table.locked)
  {
    var owned := SetFileOwnership(table, path, service.uid, service.gid, []);
    if owned.Err? {
      return false;
    }
    deleted := table.Delete(path);
  }

  /** A reaper touches no other file, and removes its own exactly when the
      service may change it. */
  lemma ReapedOnlyTouchesPath(files: map<string, Owner>, locked: set<string>, path: string)
    ensures forall p :: p in files && p != path ==> p in Reaped(files, locked, path) && Reaped(files, locked, path)[p] == files[p]
    ensures Reaped(files, locked, path).Keys <= files.Keys
    ensures path !in Reaped(files, locked, path) <==> path !in files || path !in locked
  {
  }

  /** Running a second reaper on the same path changes nothing. */
  lemma ReapIdempotent(files: map<string, Owner>, locked: set<string>, path: string)
    ensures Reaped(Reaped(files, locked, path), locked, path) == Reaped(files, locked, path)
  {
  }
}
