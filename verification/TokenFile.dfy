/** Replacing the token file atomically, whatever fails and wherever the process stops. */
module TokenFile {
  import opened GoText
  import opened ServiceTokens
  import opened TokenCommands
  import Paths

  /** A path given by a caller, or a fresh name of os.CreateTemp. */
  datatype Path = Named(path: string) | Temp(n: nat)

  datatype File = File(content: string, mode: int, uid: int, gid: int)

  type Files = map<Path, File>

  const OWNER_ONLY := 384 // 0600

  ghost function At(files: Files, p: Path): Option<File> { if p in files then Some(files[p]) else None }

  datatype IoError = UnknownOwner | MkdirFailed | TempFailed | WriteFailed | ChownFailed | RenameFailed

  /**
   * The file system. `seen` holds every state a stop since the last `Watch` could leave behind, partial writes
   * included.
   */
  class FileSystem {
    var files: Files
    ghost var seen: set<Files>
    /** Temporary files whose removal has failed since the last `Watch`, and how many other calls ever failed. */
    ghost var stuck: set<Path>
    ghost var failures: nat
    var dirs: set<string>
    /** The uid and gid texts of the user database, and the ids of this process. */
    const users: map<string, (string, string)>
    const uid: int
    const gid: int

    constructor (users: map<string, (string, string)>, uid: int, gid: int)
      ensures files == map[] && seen == {} && stuck == {} && dirs == {} && failures == 0
      ensures this.users == users && this.uid == uid && this.gid == gid
    {
      files, seen, stuck, dirs, failures := map[], {}, {}, {}, 0;
      this.users, this.uid, this.gid := users, uid, gid;
    }

    ghost method Watch()
      modifies this`seen, this`stuck
      ensures seen == {files} && stuck == {}
    {
      seen, stuck := {files}, {};
    }

    /**
     * Owner and group of a file written for `owner`: its ids are read without looking at errors, so an uid that is no
     * number means root; a negative uid stands for none, a gid of -1 for the group as it is.
     */
    ghost function Ids(owner: string): (int, int) {
      if owner != "" && owner in users && Atoi(users[owner].0) >= 0 then
        (Atoi(users[owner].0), GidOr(Atoi(users[owner].1), gid))
      else (uid, gid)
    }

    /** Makes the leading directories from the root on, and stops at the first that cannot be made. */
    method MkdirAll(dir: string) returns (ok: bool)
      modifies this`dirs, this`failures
      ensures old(dirs) <= dirs && (ok ==> dir in dirs)
      ensures forall d :: d in dirs && d !in old(dirs) ==> d <= dir
      ensures failures >= old(failures) && (ok <==> failures == old(failures))
    {
      for i := 0 to |dir|
        invariant old(dirs) <= dirs && failures == old(failures)
        invariant forall d :: d in dirs && d !in old(dirs) ==> d <= dir
      {
        if i > 0 && dir[i] == '/' {
          ok := Mkdir(dir[..i]);
          if !ok {
            return;
          }
        }
      }
      ok := Mkdir(dir);
    }

    /** Makes a directory, or finds it there. */
    method Mkdir(dir: string) returns (ok: bool)
      modifies this`dirs, this`failures
      ensures dirs == (if ok then old(dirs) + {dir} else old(dirs)) && failures == old(failures) + if ok then 0 else 1
    {
      ok := *;
      if ok {
        dirs := dirs + {dir};
      }
      failures := failures + if ok then 0 else 1;
    }

    method CreateTemp() returns (r: Option<Path>)
      modifies this`files, this`seen, this`failures
      ensures failures == old(failures) + if r.Some? then 0 else 1
      ensures r.None? ==> files == old(files) && seen == old(seen)
      ensures r.Some? ==> r.value.Temp? && r.value !in old(files)
      ensures r.Some? ==> files == old(files)[r.value := File("", OWNER_ONLY, uid, gid)] && seen == old(seen) + {files}
    {
      var ok: bool, name: Path := *, *;
      if !ok || !name.Temp? || name in files {
        failures := failures + 1;
        return None;
      }
      files := files[name := File("", OWNER_ONLY, uid, gid)];
      seen := seen + {files};
      return Some(name);
    }

    /** Writes and closes; on an error, and on a stop, any part of the text may be on disk. */
    method WriteAndClose(t: Path, text: string) returns (ok: bool, ghost during: File)
      requires t.Temp? && t in files
      modifies this`files, this`seen, this`failures
      ensures failures == old(failures) + if ok then 0 else 1
      ensures t in files && files == old(files)[t := files[t]]
      ensures ok ==> files[t] == old(files)[t].(content := text)
      ensures seen == old(seen) + {old(files)[t := during], files}
    {
      ok := *;
      var whole: string, part: string := *, *;
      during := files[t].(content := part);
      failures := failures + if ok then 0 else 1;
      seen := seen + {files[t := during]};
      files := files[t := files[t].(content := if ok then text else whole)];
      seen := seen + {files};
    }

    method Chown(t: Path, uid: int, gid: int) returns (ok: bool)
      requires t.Temp? && t in files
      modifies this`files, this`seen, this`failures
      ensures failures == old(failures) + if ok then 0 else 1
      ensures files == if ok then old(files)[t := Chowned(old(files)[t], uid, gid)] else old(files)
      ensures seen == old(seen) + {files}
    {
      ok := *;
      if ok {
        files := files[t := Chowned(files[t], uid, gid)];
      }
      failures := failures + if ok then 0 else 1;
      seen := seen + {files};
    }

    method Rename(t: Path, p: Path) returns (ok: bool)
      requires t.Temp? && t in files && p.Named?
      modifies this`files, this`seen, this`failures
      ensures failures == old(failures) + if ok then 0 else 1
      ensures files == if ok then (old(files) - {t})[p := old(files)[t]] else old(files)
      ensures seen == old(seen) + {files}
    {
      ok := *;
      if ok {
        files := (files - {t})[p := files[t]];
      }
      failures := failures + if ok then 0 else 1;
      seen := seen + {files};
    }

    method Remove(t: Path) returns (ok: bool)
      requires t.Temp?
      modifies this`files, this`seen, this`stuck
      ensures files == (if ok then old(files) - {t} else old(files)) && (t !in old(files) ==> ok)
      ensures seen == old(seen) + {files} && stuck == if ok then old(stuck) else old(stuck) + {t}
    {
      ok := *;
      ok := ok || t !in files;
      files := if ok then files - {t} else files;
      seen := seen + {files};
      stuck := if ok then stuck else stuck + {t};
    }
  }

  /** chown(2) leaves the group alone for -1. */
  function GidOr(gid: int, current: int): int { if gid == -1 then current else gid }

  function Chowned(f: File, uid: int, gid: int): File { f.(uid := uid, gid := GidOr(gid, f.gid)) }

  /**
   * Read and write for the owner, nothing for others; and the owner is this process where none is asked for or the uid
   * is negative, else the uid of the user database with its gid, for which -1 keeps the group.
   */
  lemma OwnershipIs(fs: FileSystem, owner: string, u: nat, g: nat)
    requires u <= MAX_INT && g <= MAX_INT
    ensures OWNER_ONLY == 6 * 64 + 0 * 8 + 0
    ensures owner == "" ==> fs.Ids(owner) == (fs.uid, fs.gid)
    ensures owner != "" && owner in fs.users ==>
      && (fs.users[owner] == (Itoa(u), Itoa(g)) ==> fs.Ids(owner) == (u, g))
      && (fs.users[owner] == (Itoa(u), "-1") ==> fs.Ids(owner) == (u, fs.gid))
      && (fs.users[owner].0 == "-" + Itoa(u) && u > 0 ==> fs.Ids(owner) == (fs.uid, fs.gid))
  {
    AtoiReads(u);
    AtoiReads(g);
    AtoiReads(1);
    assert "-1" == "-" + Itoa(1);
  }

  /** Seen from any path a caller can name, nothing changed but `path`, which may already hold all of `full`. */
  ghost predicate Intact(before: Files, now: Files, path: Path, full: File) {
    forall q: Path :: q.Named? ==> At(now, q) == At(before, q) || (q == path && At(now, q) == Some(full))
  }

  ghost predicate AllIntact(before: Files, states: set<Files>, path: Path, full: File) {
    forall now :: now in states ==> Intact(before, now, path, full)
  }

  /** A state that differs from `before` in a temporary file only is intact. */
  lemma TempIsIntact(before: Files, t: Path, f: File, path: Path, full: File)
    requires t.Temp?
    ensures Intact(before, before[t := f], path, full)
  {
  }

  lemma RenamedIsIntact(before: Files, t: Path, path: Path, full: File)
    requires t.Temp? && t !in before && path.Named?
    ensures (before[t := full] - {t})[path := full] == before[path := full]
    ensures Intact(before, before[path := full], path, full)
  {
  }

  /** Fills the temporary file and moves it over the target. */
  method FillAndRename(fs: FileSystem, t: Path, path: Path, secret: string, ids: Option<(int, int)>,
                       ghost before: Files, ghost full: File) returns (err: Option<IoError>)
    requires path.Named? && t.Temp? && t !in before
    requires fs.files == before[t := File("", OWNER_ONLY, fs.uid, fs.gid)] && AllIntact(before, fs.seen, path, full)
    requires full == (match ids case None => File(secret, OWNER_ONLY, fs.uid, fs.gid)
                                case Some(i) => File(secret, OWNER_ONLY, i.0, GidOr(i.1, fs.gid)))
    modifies fs`files, fs`seen, fs`failures
    ensures err.None? ==> fs.files == before[path := full]
    ensures fs.failures >= old(fs.failures) && (err.None? <==> fs.failures == old(fs.failures))
    ensures err.Some? ==> t in fs.files && fs.files == before[t := fs.files[t]]
    ensures AllIntact(before, fs.seen, path, full)
  {
    var ok, during := fs.WriteAndClose(t, secret);
    assert fs.files == before[t := fs.files[t]] && old(fs.files)[t := during] == before[t := during];
    TempIsIntact(before, t, during, path, full);
    TempIsIntact(before, t, fs.files[t], path, full);
    if !ok {
      return Some(WriteFailed);
    }
    if ids.Some? {
      ok := fs.Chown(t, ids.value.0, ids.value.1);
      assert fs.files == before[t := fs.files[t]];
      TempIsIntact(before, t, fs.files[t], path, full);
      if !ok {
        return Some(ChownFailed);
      }
    }
    assert fs.files == before[t := full];
    RenamedIsIntact(before, t, path, full);
    ok := fs.Rename(t, path);
    return if ok then None else Some(RenameFailed);
  }

  /** The ids to hand the file to, if any. */
  method OwnerIds(fs: FileSystem, owner: string) returns (r: Result<Option<(int, int)>, IoError>)
    ensures r == Err(UnknownOwner) <==> owner != "" && owner !in fs.users
    ensures r.Err? ==> r.error == UnknownOwner
    ensures r.Ok? ==>
      fs.Ids(owner) == match r.value case None => (fs.uid, fs.gid) case Some(i) => (i.0, GidOr(i.1, fs.gid))
  {
    if owner == "" {
      return Ok(None);
    }
    if owner !in fs.users {
      return Err(UnknownOwner);
    }
    var uid, gid := Atoi(fs.users[owner].0), Atoi(fs.users[owner].1);
    return Ok(if uid >= 0 then Some((uid, gid)) else None);
  }

  /** A temporary file whose removal failed is all that may be left besides the old files. */
  ghost predicate OnlyTempLeft(before: Files, now: Files, stuck: set<Path>) {
    now == before || exists t: Path :: t in stuck && t.Temp? && t !in before && now - {t} == before
  }

  lemma TempRemoved(before: Files, now: Files, t: Path, path: Path, full: File)
    requires t.Temp? && path.Named? && t !in before
    ensures now == before[path := full] ==> now - {t} == now
    ensures t in now && now == before[t := now[t]] ==> now - {t} == before && Intact(before, now, path, full)
    ensures Intact(before, before, path, full)
  {
  }

  /** The same with the deferred removal, which finds nothing to remove after a rename. */
  method FillAndRemove(fs: FileSystem, t: Path, path: Path, secret: string, ids: Option<(int, int)>,
                       ghost before: Files, ghost full: File) returns (err: Option<IoError>)
    requires path.Named? && t.Temp? && t !in before && fs.stuck == {}
    requires fs.files == before[t := File("", OWNER_ONLY, fs.uid, fs.gid)] && AllIntact(before, fs.seen, path, full)
    requires full == (match ids case None => File(secret, OWNER_ONLY, fs.uid, fs.gid)
                                case Some(i) => File(secret, OWNER_ONLY, i.0, GidOr(i.1, fs.gid)))
    modifies fs`files, fs`seen, fs`stuck, fs`failures
    ensures err.None? ==> fs.files == before[path := full] && fs.stuck == {}
    ensures fs.failures >= old(fs.failures) && (err.None? <==> fs.failures == old(fs.failures))
    ensures err.Some? ==> (fs.stuck == {} && fs.files == before) || (fs.stuck == {t} && fs.files - {t} == before)
    ensures AllIntact(before, fs.seen, path, full)
  {
    err := FillAndRename(fs, t, path, secret, ids, before, full);
    TempRemoved(before, fs.files, t, path, full);
    RenamedIsIntact(before, t, path, full);
    var removed := fs.Remove(t);
  }

  /**
   * Wherever it fails or stops, the target holds its old content or all of the new file, and nothing else a caller can
   * name changes. An error leaves the target as it was; success, which is exactly when the owner is known and no call
   * fails, leaves the secret with mode 0600 and the requested owner, in a directory that exists. No temporary file is
   * left unless its own removal failed, and the only directories made lead to the target.
   */
  method WriteTokenFile(fs: FileSystem, path: Path, secret: string, owner: string) returns (err: Option<IoError>)
    requires path.Named?
    modifies fs`files, fs`seen, fs`stuck, fs`dirs, fs`failures
    ensures owner != "" && owner !in fs.users ==> err == Some(UnknownOwner)
    ensures fs.failures >= old(fs.failures)
    ensures err.None? <==> (owner == "" || owner in fs.users) && fs.failures == old(fs.failures)
    ensures var full := File(secret, OWNER_ONLY, fs.Ids(owner).0, fs.Ids(owner).1);
            && (err.None? ==> fs.stuck == {} && fs.files == old(fs.files)[path := full])
            && AllIntact(old(fs.files), fs.seen, path, full)
    ensures err.Some? ==>
      OnlyTempLeft(old(fs.files), fs.files, fs.stuck) && (fs.stuck == {} ==> fs.files == old(fs.files))
    ensures old(fs.dirs) <= fs.dirs && (err.None? ==> Paths.Dir(path.path) in fs.dirs)
    ensures forall d :: d in fs.dirs && d !in old(fs.dirs) ==> d <= Paths.Dir(path.path)
  {
    fs.Watch();
    var ids := OwnerIds(fs, owner);
    if ids.Err? {
      err := Some(ids.error);
      return;
    }
    var made := fs.MkdirAll(Paths.Dir(path.path));
    if !made {
      err := Some(MkdirFailed);
      return;
    }
    var tmp := fs.CreateTemp();
    if tmp.None? {
      err := Some(TempFailed);
      return;
    }
    ghost var full := File(secret, OWNER_ONLY, fs.Ids(owner).0, fs.Ids(owner).1);
    TempIsIntact(old(fs.files), tmp.value, File("", OWNER_ONLY, fs.uid, fs.gid), path, full);
    err := FillAndRemove(fs, tmp.value, path, secret, ids.value, old(fs.files), full);
  }

  /**
   * EnsureServiceToken.Run, with or without a client: a failure at any point leaves the token file as it was; success
   * leaves in it, whole, the secret its ensure ended with. It fails only where the client, the ensure, the owner or
   * a file does.
   */
  method RunEnsure(acl: ServiceTokenAcl, fs: FileSystem, hasClient: bool, service: string, policy: string,
                   tokenFile: Path, owner: string)
    returns (failed: bool, ghost secret: string)
    requires tokenFile.Named?
    modifies acl, fs`files, fs`seen, fs`stuck, fs`dirs, fs`failures
    ensures if hasClient then Ran(acl, Ensure(service, policy, EnsureStart)) else failed && unchanged(acl)
    ensures failed && hasClient ==>
      || (exists why :: EnsureReturns(acl.caller, service, policy, Err(why)))
      || (owner != "" && owner !in fs.users)
      || fs.failures > old(fs.failures)
    ensures failed ==> At(fs.files, tokenFile) == old(At(fs.files, tokenFile))
    ensures failed && fs.stuck == {} ==> fs.files == old(fs.files)
    ensures !failed ==> EnsureReturns(acl.caller, service, policy, Ok(secret))
    ensures !failed ==>
      fs.files == old(fs.files)[tokenFile := File(secret, OWNER_ONLY, fs.Ids(owner).0, fs.Ids(owner).1)]
  {
    failed, secret := true, "";
    fs.Watch();
    if hasClient {
      var ensured := EnsureServiceToken(acl, service, policy);
      if ensured.Ok? {
        secret := ensured.value;
        var err := WriteTokenFile(fs, tokenFile, ensured.value, owner);
        failed := err.Some?;
      }
    }
  }
}
