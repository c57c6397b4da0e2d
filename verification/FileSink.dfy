/** The file sink: bytes go to `path.tmp`, and a commit puts them in the place of `path`. */
module FileSinks {
  import opened Types

  type Path = string
  type Files = map<Path, seq<byte>>

  ghost function At(files: Files, path: Path): Option<seq<byte>> {
    if path in files then Some(files[path]) else None
  }

  // How many operations of each kind have failed.
  datatype Failures = Failures(removals: nat, renames: nat, others: nat)

  // A file system on which any operation may fail; one that fails changes nothing, except that a
  // write may stop after a part of the bytes. `history` keeps every state it has been in. A plan
  // fixes what fails: every rename but the first so many, and nothing else.
  class FileSystem {
    var files: Files
    ghost var history: seq<Files>
    ghost var failed: Failures
    const plan: Option<nat>
    var renamed: nat
    // How often a directory has been made ready, and how often a rename has met a file at its target.
    ghost var directories: nat
    ghost var overwrites: nat

    constructor (files: Files, plan: Option<nat>)
      ensures this.files == files && history == [files] && failed == Failures(0, 0, 0)
      ensures this.plan == plan && renamed == 0 && directories == 0 && overwrites == 0
    {
      this.files, history, failed := files, [files], Failures(0, 0, 0);
      this.plan, renamed, directories, overwrites := plan, 0, 0, 0;
    }

    method Exists(path: Path) returns (found: bool)
      ensures found <==> path in files
    {
      return path in files;
    }

    method EnsureDirectory() returns (ok: bool)
      modifies this`failed, this`directories
      ensures directories == old(directories) + if ok then 1 else 0
      ensures failed == if ok then old(failed) else old(failed).(others := old(failed).others + 1)
      ensures plan.Some? ==> ok
    {
      ok := *;
      if plan.Some? {
        ok := true;
      }
      if ok {
        directories := directories + 1;
      } else {
        failed := failed.(others := failed.others + 1);
      }
    }

    method Remove(path: Path) returns (ok: bool)
      modifies this
      ensures renamed == old(renamed) && (plan.Some? ==> ok)
      ensures directories == old(directories) && overwrites == old(overwrites)
      ensures files == if ok then old(files) - {path} else old(files)
      ensures failed == if ok then old(failed) else old(failed).(removals := old(failed).removals + 1)
      ensures history == old(history) + [files]
    {
      ok := *;
      if plan.Some? {
        ok := true;
      }
      if ok {
        files := files - {path};
      } else {
        failed := failed.(removals := failed.removals + 1);
      }
      history := history + [files];
    }

    method Rename(from: Path, to: Path) returns (ok: bool)
      modifies this
      ensures renamed == old(renamed) + 1 && directories == old(directories)
      ensures overwrites == old(overwrites) + if to in old(files) then 1 else 0
      ensures plan.Some? ==> ok == (from in old(files) && old(renamed) < plan.value)
      ensures ok ==> from in old(files) && files == (old(files) - {from})[to := old(files)[from]]
      ensures !ok ==> files == old(files)
      ensures failed == if ok then old(failed) else old(failed).(renames := old(failed).renames + 1)
      ensures history == old(history) + [files]
    {
      ok := *;
      if plan.Some? {
        ok := renamed < plan.value;
      }
      if from !in files {
        ok := false;
      }
      renamed := renamed + 1;
      if to in files {
        overwrites := overwrites + 1;
      }
      if ok {
        var content := files[from];
        files := (files - {from})[to := content];
      } else {
        failed := failed.(renames := failed.renames + 1);
      }
      history := history + [files];
    }

    method Create(path: Path) returns (ok: bool)
      modifies this
      ensures renamed == old(renamed) && (plan.Some? ==> ok)
      ensures directories == old(directories) && overwrites == old(overwrites)
      ensures files == if ok then old(files)[path := []] else old(files)
      ensures failed == if ok then old(failed) else old(failed).(others := old(failed).others + 1)
      ensures history == old(history) + [files]
    {
      ok := *;
      if plan.Some? {
        ok := true;
      }
      if ok {
        files := files[path := []];
      } else {
        failed := failed.(others := failed.others + 1);
      }
      history := history + [files];
    }

    method Append(path: Path, bytes: seq<byte>) returns (n: nat)
      requires path in files
      modifies this
      ensures renamed == old(renamed) && (plan.Some? ==> n == |bytes|)
      ensures directories == old(directories) && overwrites == old(overwrites)
      ensures n <= |bytes| && files == old(files)[path := old(files)[path] + bytes[..n]]
      ensures failed == if n == |bytes| then old(failed) else old(failed).(others := old(failed).others + 1)
      ensures history == old(history) + [files]
    {
      n :| n <= |bytes|;
      if plan.Some? {
        n := |bytes|;
      }
      if n != |bytes| {
        failed := failed.(others := failed.others + 1);
      }
      files := files[path := files[path] + bytes[..n]];
      history := history + [files];
    }
  }

  // The states a file system has gone through since it had n of them.
  ghost predicate Since(history: seq<Files>, n: nat, old': Option<seq<byte>>, new': seq<byte>,
                        path: Path, backup: Path) {
    forall i | n <= i < |history| :: Kept(history[i], old', new', path, backup)
  }

  // An old destination is not lost: it is at the path or at the backup, unless the new contents
  // have taken its place.
  ghost predicate Kept(files: Files, old': Option<seq<byte>>, new': seq<byte>, path: Path, backup: Path) {
    old'.Some? ==> At(files, path) == old' || At(files, backup) == old' || At(files, path) == Some(new')
  }

  class FileSink {
    const fs: FileSystem
    const path: Path
    const tempPath: Path
    const backupPath: Path
    const truncate: bool
    var hasFile: bool
    var isOpen: bool
    var written: nat
    // The bytes of every write that succeeded since the sink was opened, and whether all did.
    ghost var staged: seq<byte>
    ghost var whole: bool

    ghost predicate Valid()
      reads this, fs
    {
      && tempPath != path && backupPath != path && tempPath != backupPath
      && (hasFile ==> tempPath in fs.files && (whole ==> fs.files[tempPath] == staged))
      && written == |staged|
    }

    // Everything but the three names of this sink is as in `before`.
    ghost predicate Elsewhere(before: Files)
      reads this, fs
    {
      forall p | p !in {path, tempPath, backupPath} :: At(fs.files, p) == At(before, p)
    }

    // Neither temporary name is left behind, unless removing one has failed.
    ghost predicate Tidy(before: Failures)
      reads this, fs
    {
      && before.removals <= fs.failed.removals
      && (before.removals == fs.failed.removals ==> tempPath !in fs.files && backupPath !in fs.files)
    }

    constructor (fs: FileSystem, path: Path, truncate: bool)
      ensures Valid() && this.fs == fs && this.path == path && this.truncate == truncate
      ensures !isOpen && !hasFile && tempPath == path + ".tmp" && backupPath == path + ".bak"
    {
      this.fs, this.path, this.truncate := fs, path, truncate;
      tempPath, backupPath := path + ".tmp", path + ".bak";
      hasFile, isOpen, written, staged, whole := false, false, 0, [], true;
      new;
      assert tempPath[|path| + 1] == 't' && backupPath[|path| + 1] == 'b';
    }

    method Cleanup(name: Path)
      requires Valid() && (name == backupPath || (name == tempPath && !hasFile))
      modifies fs
      ensures Valid()
      ensures fs.files == old(fs.files) || fs.files == old(fs.files) - {name}
      ensures old(fs.history) <= fs.history <= old(fs.history) + [fs.files]
      ensures fs.failed.(removals := 0) == old(fs.failed).(removals := 0)
      ensures if name in fs.files then fs.failed.removals == old(fs.failed.removals) + 1
              else fs.failed == old(fs.failed)
      ensures fs.renamed == old(fs.renamed) && (fs.plan.Some? ==> fs.failed == old(fs.failed))
      ensures fs.directories == old(fs.directories) && fs.overwrites == old(fs.overwrites)
    {
      var found := fs.Exists(name);
      if found {
        var ok := fs.Remove(name);
      }
    }

    // Removes what an earlier session may have left behind.
    method Discard()
      requires Valid() && !hasFile
      modifies fs
      ensures Valid() && Elsewhere(old(fs.files)) && At(fs.files, path) == At(old(fs.files), path)
      ensures fs.failed.(removals := 0) == old(fs.failed).(removals := 0)
      ensures Tidy(old(fs.failed))
      ensures fs.renamed == old(fs.renamed) && (fs.plan.Some? ==> fs.failed == old(fs.failed))
      ensures fs.directories == old(fs.directories) && fs.overwrites == old(fs.overwrites)
    {
      Cleanup(tempPath);
      Cleanup(backupPath);
    }

    method Open() returns (err: Error)
      requires Valid() && !hasFile
      modifies this, fs
      ensures Valid() && Elsewhere(old(fs.files)) && At(fs.files, path) == At(old(fs.files), path)
      ensures err == Ok ==> isOpen && hasFile && staged == [] && whole
      ensures err == Ok ==> path != [] && (truncate || path !in fs.files)
      ensures err != Ok ==> !hasFile && err in {InvalidArgument, OpenFailed}
      ensures err == InvalidArgument <==> path == []
      ensures err == OpenFailed ==> (!truncate && path in fs.files) || fs.failed.others > old(fs.failed.others)
      ensures fs.failed.renames == old(fs.failed.renames) && fs.failed.removals >= old(fs.failed.removals)
      ensures fs.failed.others >= old(fs.failed.others)
      ensures fs.renamed == old(fs.renamed) && (fs.plan.Some? ==> fs.failed == old(fs.failed))
      ensures fs.overwrites == old(fs.overwrites) && (err == Ok ==> fs.directories == old(fs.directories) + 1)
    {
      if |path| == 0 {
        return InvalidArgument;
      }
      if !truncate {
        var found := fs.Exists(path);
        if found {
          return OpenFailed;
        }
      }
      var ready := fs.EnsureDirectory();
      if !ready {
        return OpenFailed;
      }
      Discard();
      var created := fs.Create(tempPath);
      if !created {
        return OpenFailed;
      }
      hasFile, staged, whole := true, [], true;
      written, isOpen := 0, true;
      return Ok;
    }

    method Write(bytes: seq<byte>) returns (err: Error)
      requires Valid()
      modifies this, fs
      ensures Valid() && Elsewhere(old(fs.files)) && At(fs.files, path) == At(old(fs.files), path)
      ensures isOpen == old(isOpen) && hasFile == old(hasFile)
      ensures err == Ok ==> staged == old(staged) + bytes && whole == old(whole)
      ensures err != Ok ==>
                err == WriteFailed && (!isOpen || !hasFile || fs.failed.others > old(fs.failed.others))
      ensures fs.failed.(others := 0) == old(fs.failed).(others := 0) && fs.failed.others >= old(fs.failed.others)
      ensures fs.renamed == old(fs.renamed) && (fs.plan.Some? ==> fs.failed == old(fs.failed))
      ensures fs.directories == old(fs.directories) && fs.overwrites == old(fs.overwrites)
    {
      if !isOpen || !hasFile {
        return WriteFailed;
      }
      if |bytes| == 0 {
        return Ok;
      }
      var n := fs.Append(tempPath, bytes);
      if n != |bytes| {
        whole := false;
        return WriteFailed;
      }
      staged, written := staged + bytes, written + n;
      return Ok;
    }

    // Moves an old destination out of the way; it is then at the backup name.
    method MoveAside(ghost old': Option<seq<byte>>, ghost new': seq<byte>) returns (moved: bool)
      requires Valid() && path in fs.files && old' == At(fs.files, path)
      modifies fs
      ensures Valid() && Elsewhere(old(fs.files)) && old(fs.history) <= fs.history
      ensures At(fs.files, tempPath) == At(old(fs.files), tempPath)
      ensures if moved then path !in fs.files && At(fs.files, backupPath) == old' else At(fs.files, path) == old'
      ensures Since(fs.history, |old(fs.history)|, old', new', path, backupPath)
      ensures fs.failed.others == old(fs.failed.others) && fs.failed.removals >= old(fs.failed.removals)
      ensures fs.failed.renames == old(fs.failed.renames) + if moved then 0 else 1
      ensures fs.renamed == old(fs.renamed) + 1
      ensures fs.failed.removals == old(fs.failed.removals) ==> fs.overwrites == old(fs.overwrites)
      ensures fs.plan.Some? ==>
                moved == (old(fs.renamed) < fs.plan.value) && fs.failed.removals == old(fs.failed.removals)
    {
      Cleanup(backupPath);
      moved := fs.Rename(path, backupPath);
    }

    // Moves the new contents to the path, or the old ones back to it.
    method Publish(hadDestination: bool, ghost old': Option<seq<byte>>, ghost new': seq<byte>)
      returns (published: bool, ghost stranded: bool)
      requires Valid() && !hasFile && At(fs.files, tempPath) == Some(new') && path !in fs.files
      requires if hadDestination then old'.Some? && At(fs.files, backupPath) == old' else old' == None
      modifies fs
      ensures Valid() && Elsewhere(old(fs.files)) && old(fs.history) <= fs.history
      ensures published ==> !stranded && At(fs.files, path) == Some(new')
      ensures !published && !stranded ==> At(fs.files, path) == old'
      ensures stranded ==> !published && hadDestination && path !in fs.files && At(fs.files, backupPath) == old'
      ensures Since(fs.history, |old(fs.history)|, old', new', path, backupPath)
      ensures fs.failed.others == old(fs.failed.others) && fs.overwrites == old(fs.overwrites)
      ensures fs.failed.renames == old(fs.failed.renames) + if published then 0 else if stranded then 2 else 1
      ensures fs.plan.Some? ==>
                && published == (old(fs.renamed) < fs.plan.value)
                && stranded == (hadDestination && !published)
                && fs.failed.removals == old(fs.failed.removals)
      ensures published ==> Tidy(old(fs.failed))
      ensures !published ==>
                && fs.failed.removals >= old(fs.failed.removals)
                && (fs.failed.removals == old(fs.failed.removals) ==> tempPath !in fs.files)
    {
      stranded := false;
      published := fs.Rename(tempPath, path);
      if !published {
        if hadDestination {
          var back := fs.Rename(backupPath, path);
          stranded := !back;
        }
        Cleanup(tempPath);
      } else {
        Cleanup(backupPath);
      }
    }

    // Puts the new contents in the place of the old. `stranded` tells of the one case in which the
    // path ends up empty: publishing failed and moving the old file back failed as well.
    method Commit() returns (err: Error, ghost stranded: bool)
      requires Valid()
      modifies this`hasFile, fs
      ensures Valid() && Elsewhere(old(fs.files)) && old(fs.history) <= fs.history
      ensures err == Ok ==>
                && old(isOpen && hasFile) && !hasFile && !stranded
                && At(fs.files, path) == At(old(fs.files), tempPath)
      ensures err == Ok ==> Tidy(old(fs.failed)) && fs.failed.renames == old(fs.failed.renames)
      ensures err != Ok ==>
                err == WriteFailed && (!old(isOpen && hasFile) || fs.failed.renames > old(fs.failed.renames))
      ensures fs.failed.removals == old(fs.failed.removals) ==> fs.overwrites == old(fs.overwrites)
      ensures stranded <==> fs.failed.renames == old(fs.failed.renames) + 2
      ensures fs.plan.Some? ==> fs.failed.removals == old(fs.failed.removals)
      ensures fs.plan.Some? && old(isOpen && hasFile) && path in old(fs.files) ==>
                (stranded <==> old(fs.renamed) + 1 == fs.plan.value)
      ensures fs.failed.others == old(fs.failed.others) && fs.failed.removals >= old(fs.failed.removals)
      ensures fs.failed.renames >= old(fs.failed.renames)
      ensures err != Ok && !stranded ==> At(fs.files, path) == At(old(fs.files), path)
      ensures stranded ==>
                && err != Ok && path in old(fs.files) && path !in fs.files
                && At(fs.files, backupPath) == At(old(fs.files), path)
      ensures old(hasFile) ==>
                Since(fs.history, |old(fs.history)|, At(old(fs.files), path), old(fs.files)[tempPath], path, backupPath)
    {
      hide Kept;
      stranded := false;
      if !isOpen || !hasFile {
        return WriteFailed, stranded;
      }
      hasFile := false;
      ghost var old', new' := At(fs.files, path), fs.files[tempPath];
      var hadDestination := fs.Exists(path);
      if hadDestination {
        var moved := MoveAside(old', new');
        if !moved {
          return WriteFailed, stranded;
        }
      }
      var published;
      published, stranded := Publish(hadDestination, old', new');
      return if published then Ok else WriteFailed, stranded;
    }

    method Abort()
      requires Valid()
      modifies this`hasFile, fs
      ensures Valid() && Elsewhere(old(fs.files)) && At(fs.files, path) == At(old(fs.files), path)
      ensures !hasFile && Tidy(old(fs.failed)) && (fs.plan.Some? ==> fs.failed == old(fs.failed))
      ensures fs.failed.(removals := 0) == old(fs.failed).(removals := 0) && fs.overwrites == old(fs.overwrites)
    {
      hasFile := false;
      Discard();
    }

    method Close()
      requires Valid()
      modifies this
      ensures Valid() && !isOpen && !hasFile
    {
      hasFile, isOpen := false, false;
    }
  }

  function Joined(writes: seq<seq<byte>>): seq<byte> {
    if writes == [] then [] else Joined(writes[..|writes| - 1]) + writes[|writes| - 1]
  }

  // A whole session as a run conducts it: open, writes until one fails, a commit unless the run
  // gives up first, an abort unless committed, close. `lost` is the double failure: publishing and
  // rolling back both failed.
  method RunSession(sink: FileSink, writes: seq<seq<byte>>, giveUp: bool)
    returns (err: Error, ghost lost: bool)
    requires sink.Valid() && !sink.hasFile
    modifies sink, sink.fs
    ensures sink.Valid() && sink.Elsewhere(old(sink.fs.files))
    ensures err == Ok ==> !giveUp && At(sink.fs.files, sink.path) == Some(Joined(writes))
    ensures err != Ok && !lost ==> At(sink.fs.files, sink.path) == At(old(sink.fs.files), sink.path)
    ensures lost ==> err != Ok && sink.path in old(sink.fs.files) && sink.path !in sink.fs.files
    ensures lost <==> sink.fs.failed.renames == old(sink.fs.failed.renames) + 2
    ensures lost ==> err == WriteFailed
    ensures sink.fs.failed.removals == old(sink.fs.failed.removals) ==> sink.fs.overwrites == old(sink.fs.overwrites)
    ensures err == Ok ==> sink.path != [] && (sink.truncate || sink.path !in old(sink.fs.files))
    ensures sink.fs.plan.Some? ==> sink.fs.failed.removals == old(sink.fs.failed.removals)
    ensures sink.fs.plan.Some? && sink.path != [] && sink.truncate && sink.path in old(sink.fs.files) && !giveUp ==>
              (lost <==> old(sink.fs.renamed) + 1 == sink.fs.plan.value)
    ensures err !in {InvalidArgument, OpenFailed} ==> sink.Tidy(old(sink.fs.failed))
    ensures err != Ok && !(giveUp && err == Cancelled) ==>
              || sink.path == [] || (!sink.truncate && sink.path in old(sink.fs.files))
              || sink.fs.failed.others > old(sink.fs.failed.others)
              || sink.fs.failed.renames > old(sink.fs.failed.renames)
  {
    lost := false;
    err := sink.Open();
    if err != Ok {
      sink.Close();
      return;
    }
    err := WriteEach(sink, writes);
    var committed := false;
    if err == Ok && giveUp {
      err := Cancelled;
    }
    if err == Ok {
      err, lost := sink.Commit();
      committed := err == Ok;
    }
    if !committed {
      sink.Abort();
    }
    sink.Close();
  }

  method WriteEach(sink: FileSink, writes: seq<seq<byte>>) returns (err: Error)
    requires sink.Valid() && sink.isOpen && sink.hasFile && sink.staged == [] && sink.whole
    modifies sink, sink.fs
    ensures sink.Valid() && sink.Elsewhere(old(sink.fs.files))
    ensures At(sink.fs.files, sink.path) == At(old(sink.fs.files), sink.path)
    ensures err == Ok ==> sink.isOpen && sink.hasFile && sink.whole && sink.staged == Joined(writes)
    ensures err != Ok ==> err == WriteFailed && sink.fs.failed.others > old(sink.fs.failed.others)
    ensures sink.fs.failed.(others := 0) == old(sink.fs.failed).(others := 0)
    ensures sink.fs.failed.others >= old(sink.fs.failed.others)
    ensures sink.fs.renamed == old(sink.fs.renamed) && sink.fs.overwrites == old(sink.fs.overwrites)
    ensures sink.fs.plan.Some? ==> sink.fs.failed == old(sink.fs.failed)
  {
    err := Ok;
    for i := 0 to |writes|
      invariant sink.Valid() && sink.Elsewhere(old(sink.fs.files)) && sink.isOpen && sink.hasFile && err == Ok
      invariant At(sink.fs.files, sink.path) == At(old(sink.fs.files), sink.path)
      invariant sink.whole && sink.staged == Joined(writes[..i])
      invariant sink.fs.failed.(others := 0) == old(sink.fs.failed).(others := 0)
      invariant sink.fs.failed.others >= old(sink.fs.failed.others)
      invariant sink.fs.renamed == old(sink.fs.renamed) && sink.fs.overwrites == old(sink.fs.overwrites)
      invariant sink.fs.plan.Some? ==> sink.fs.failed == old(sink.fs.failed)
    {
      assert writes[..i + 1][..i] == writes[..i];
      err := sink.Write(writes[i]);
      if err != Ok {
        return;
      }
    }
    assert writes[..|writes|] == writes;
  }

  // The double failure does happen: where every rename after the first fails, and nothing else, a
  // file that was to be replaced is gone, old contents and new.
  method LoseFile(path: Path, content: seq<byte>, writes: seq<seq<byte>>)
    returns (fs: FileSystem, err: Error, ghost lost: bool)
    requires path != []
    ensures lost && err == WriteFailed && fs.files == map[]
  {
    fs := new FileSystem(map[path := content], Some(1));
    var sink := new FileSink(fs, path, true);
    err, lost := RunSession(sink, writes, false);
    forall p
      ensures p !in fs.files
    {
      if p !in {sink.path, sink.tempPath, sink.backupPath} {
        assert At(fs.files, p) == At(map[path := content], p) == None;
      }
    }
  }
}
