/** All-or-nothing output files: stage, back up, install, roll back (_OutputTransaction in cli.py). */
module Transaction {
  import opened Models
  import opened Maps
  import opened FileSystems

  /** A staged output: the bytes its stream has not written out yet are still in its buffer. */
  datatype StagedFile = StagedFile(finalPath: Path, temporaryPath: Path, buffer: Bytes, closed: bool)

  datatype Backup = Backup(finalPath: Path, backupPath: Path)

  datatype CommitExit =
    | Committed
    | CommittedNotCleaned
    | StagingFailed
    | RolledBack
    | RollbackFailed

  // ---------------------------------------------------------------------------------------------
  // What the files say
  // ---------------------------------------------------------------------------------------------

  /** The staged files have names of their own. */
  ghost predicate Apart(staged: seq<StagedFile>) {
    && (forall i | 0 <= i < |staged| :: staged[i].finalPath.Output? && staged[i].temporaryPath.Temporary?)
    && (forall i, j | 0 <= i < j < |staged| ::
          staged[i].finalPath != staged[j].finalPath && staged[i].temporaryPath != staged[j].temporaryPath)
  }

  /** The backups are of staged files, under names of their own. */
  ghost predicate BackedApart(staged: seq<StagedFile>, backups: seq<Backup>) {
    && (forall i | 0 <= i < |backups| :: backups[i].finalPath.Output? && backups[i].backupPath.Temporary?)
    && (forall i, j | 0 <= i < j < |backups| ::
          backups[i].finalPath != backups[j].finalPath && backups[i].backupPath != backups[j].backupPath)
    && (forall i, k | 0 <= i < |backups| && 0 <= k < |staged| :: backups[i].backupPath != staged[k].temporaryPath)
  }

  ghost predicate IsFinal(staged: seq<StagedFile>, p: Path) {
    exists i :: 0 <= i < |staged| && staged[i].finalPath == p
  }

  ghost predicate BackedUp(backups: seq<Backup>, p: Path) {
    exists i :: 0 <= i < |backups| && backups[i].finalPath == p
  }

  /** The same contents, or the same absence. */
  predicate SameAt(files: Files, before: Files, p: Path) {
    (p in files <==> p in before) && (p in files ==> files[p] == before[p])
  }

  predicate FileHolds(files: Files, p: Path, data: Bytes) {
    p in files && files[p] == data
  }

  /** Everything written to a staged stream. */
  function Contents(files: Files, staged: StagedFile): Bytes {
    (if staged.temporaryPath in files then files[staged.temporaryPath] else []) + staged.buffer
  }

  /** Each original is at its final path or at its backup. */
  ghost predicate Survives(files: Files, before: Files, backups: seq<Backup>, p: Path) {
    p in before ==>
      FileHolds(files, p, before[p])
      || exists i ::
           0 <= i < |backups| && backups[i].finalPath == p && FileHolds(files, backups[i].backupPath, before[p])
  }

  /** A backup that holds the original. */
  ghost predicate BackupKept(files: Files, before: Files, b: Backup) {
    b.finalPath in before && FileHolds(files, b.backupPath, before[b.finalPath])
  }

  /** An output that is installed, or still staged with its final path backed up or untouched. */
  ghost predicate Placed(
    files: Files, before: Files, file: StagedFile, data: Bytes, backups: seq<Backup>, installed: set<Path>,
    missed: set<Path>)
  {
    if file.finalPath in installed then
      && FileHolds(files, file.finalPath, data)
      && (BackedUp(backups, file.finalPath) || file.finalPath !in before || file.finalPath in missed)
    else
      && FileHolds(files, file.temporaryPath, data)
      && (if BackedUp(backups, file.finalPath) then file.finalPath !in files else SameAt(files, before, file.finalPath))
  }

  /** The state of every final path while commit runs; missed are the originals whose existence went unnoticed. */
  ghost predicate InProgress(
    files: Files, before: Files, staged: seq<StagedFile>, data: seq<Bytes>, backups: seq<Backup>, installed: set<Path>,
    missed: set<Path>)
    requires |data| == |staged|
  {
    && (forall i | 0 <= i < |backups| :: BackupKept(files, before, backups[i]) && IsFinal(staged, backups[i].finalPath))
    && (forall k | 0 <= k < |staged| :: Placed(files, before, staged[k], data[k], backups, installed, missed))
    && (forall p | p in installed :: IsFinal(staged, p))
    && (forall p | p in missed :: IsFinal(staged, p) && p in before && !BackedUp(backups, p))
  }

  /** No output path but the final ones changes. */
  ghost predicate OthersKept(files: Files, before: Files, staged: seq<StagedFile>) {
    forall p: Path | p.Output? && !IsFinal(staged, p) :: SameAt(files, before, p)
  }

  /** A name that neither stages nor backs up anything. */
  ghost predicate Unused(staged: seq<StagedFile>, backups: seq<Backup>, p: Path) {
    && p.Temporary?
    && (forall k | 0 <= k < |staged| :: staged[k].temporaryPath != p)
    && (forall i | 0 <= i < |backups| :: backups[i].backupPath != p)
  }

  /** Files that differ at an unused name only. */
  ghost predicate AgreeBut(files: Files, files': Files, p: Path) {
    forall q | q != p :: SameAt(files', files, q)
  }

  /** The temporary names in use are the foreign ones, those of staged files and backups, and those left behind. */
  ghost predicate Accounted(
    files: Files, foreign: set<Path>, leaked: set<Path>, staged: seq<StagedFile>, backups: seq<Backup>)
  {
    && (forall p :: p in foreign || p in leaked <==> p in files && Unused(staged, backups, p))
    && (forall p | p in foreign :: p !in leaked)
  }

  /** No name outside the transaction's own comes or goes. */
  ghost predicate SameNames(files: Files, files': Files, staged: seq<StagedFile>, backups: seq<Backup>) {
    forall p | Unused(staged, backups, p) :: p in files' <==> p in files
  }

  /** Once committed no staged file is left under its temporary name. */
  ghost predicate NoneStaged(files: Files, staged: seq<StagedFile>) {
    forall k | 0 <= k < |staged| :: staged[k].temporaryPath !in files
  }

  ghost predicate NoneBacked(files: Files, backups: seq<Backup>) {
    forall i | 0 <= i < |backups| :: backups[i].backupPath !in files
  }

  lemma AgreeingProgress(
    files: Files, files': Files, before: Files, staged: seq<StagedFile>, data: seq<Bytes>, backups: seq<Backup>,
    installed: set<Path>, missed: set<Path>, p: Path)
    requires |data| == |staged| && Apart(staged) && BackedApart(staged, backups)
    requires InProgress(files, before, staged, data, backups, installed, missed)
    requires Unused(staged, backups, p) && AgreeBut(files, files', p)
    ensures InProgress(files', before, staged, data, backups, installed, missed)
  {
    hide IsFinal, BackedUp;
    forall i | 0 <= i < |backups| ensures BackupKept(files', before, backups[i]) {
      assert BackupKept(files, before, backups[i]);
      assert SameAt(files', files, backups[i].backupPath);
    }
    forall k | 0 <= k < |staged| ensures Placed(files', before, staged[k], data[k], backups, installed, missed) {
      assert Placed(files, before, staged[k], data[k], backups, installed, missed);
      assert SameAt(files', files, staged[k].finalPath) && SameAt(files', files, staged[k].temporaryPath);
    }
  }

  lemma BackedUpAppend(backups: seq<Backup>, last: Backup, p: Path)
    ensures BackedUp(backups + [last], p) <==> BackedUp(backups, p) || last.finalPath == p
  {
    var all := backups + [last];
    if BackedUp(backups, p) {
      var i :| 0 <= i < |backups| && backups[i].finalPath == p;
      assert all[i].finalPath == p;
    }
    assert all[|backups|] == last;
  }

  /** Moving an original to a new backup. */
  lemma BackupProgress(
    files: Files, before: Files, staged: seq<StagedFile>, data: seq<Bytes>, backups: seq<Backup>,
    installed: set<Path>, missed: set<Path>, n: nat, p: Path)
    requires |data| == |staged| && Apart(staged) && BackedApart(staged, backups) && n < |staged|
    requires InProgress(files, before, staged, data, backups, installed, missed)
    requires Unused(staged, backups, p) && staged[n].finalPath in files
    requires staged[n].finalPath !in installed && !BackedUp(backups, staged[n].finalPath)
    requires staged[n].finalPath !in missed
    ensures var b := Backup(staged[n].finalPath, p);
            && BackedApart(staged, backups + [b])
            && InProgress(Renamed(files, staged[n].finalPath, p), before, staged, data, backups + [b], installed,
                          missed)
  {
    hide IsFinal;
    var final := staged[n].finalPath;
    var b, files' := Backup(final, p), Renamed(files, final, p);
    assert Placed(files, before, staged[n], data[n], backups, installed, missed);
    NotBackedUp(backups, final);
    forall k | 0 <= k < |staged| ensures Placed(files', before, staged[k], data[k], backups + [b], installed, missed) {
      assert Placed(files, before, staged[k], data[k], backups, installed, missed);
      BackedUpAppend(backups, b, staged[k].finalPath);
      NamesDiffer(staged, k, n);
    }
    var all := backups + [b];
    forall i | 0 <= i < |all| ensures BackupKept(files', before, all[i]) {
      if i < |backups| {
        assert BackupKept(files, before, backups[i]) && all[i] == backups[i];
      }
    }
    forall p | p in missed ensures !BackedUp(all, p) {
      BackedUpAppend(backups, b, p);
    }
    OwnFinal(staged, n);
  }

  /** Missing an original that is there. */
  lemma MissProgress(
    files: Files, before: Files, staged: seq<StagedFile>, data: seq<Bytes>, backups: seq<Backup>,
    installed: set<Path>, missed: set<Path>, n: nat)
    requires |data| == |staged| && n < |staged| && staged[n].finalPath in files
    requires InProgress(files, before, staged, data, backups, installed, missed)
    requires staged[n].finalPath !in installed && !BackedUp(backups, staged[n].finalPath)
    ensures InProgress(files, before, staged, data, backups, installed, missed + {staged[n].finalPath})
  {
    hide IsFinal, BackedUp;
    OwnFinal(staged, n);
    assert Placed(files, before, staged[n], data[n], backups, installed, missed);
    var more := missed + {staged[n].finalPath};
    forall k | 0 <= k < |staged| ensures Placed(files, before, staged[k], data[k], backups, installed, more) {
      assert Placed(files, before, staged[k], data[k], backups, installed, missed);
    }
  }

  lemma NotBackedUp(backups: seq<Backup>, p: Path)
    ensures !BackedUp(backups, p) ==> forall i | 0 <= i < |backups| :: backups[i].finalPath != p
  {
  }

  lemma NamesDiffer(staged: seq<StagedFile>, k: nat, n: nat)
    requires Apart(staged) && k < |staged| && n < |staged|
    ensures k != n ==> staged[k].finalPath != staged[n].finalPath && staged[k].temporaryPath != staged[n].temporaryPath
    ensures staged[k].finalPath.Output? && staged[k].temporaryPath.Temporary?
  {
  }

  lemma OwnFinal(staged: seq<StagedFile>, n: nat)
    requires n < |staged|
    ensures IsFinal(staged, staged[n].finalPath)
  {
  }

  /** Backed up, without an original, or with one that went unnoticed. */
  ghost predicate Guarded(before: Files, backups: seq<Backup>, missed: set<Path>, p: Path) {
    BackedUp(backups, p) || p !in before || p in missed
  }

  /** Moving a staged file to its final path. */
  lemma InstallProgress(
    files: Files, before: Files, staged: seq<StagedFile>, data: seq<Bytes>, backups: seq<Backup>,
    installed: set<Path>, missed: set<Path>, n: nat)
    requires |data| == |staged| && Apart(staged) && BackedApart(staged, backups) && n < |staged|
    requires InProgress(files, before, staged, data, backups, installed, missed)
    requires staged[n].finalPath !in installed
    requires Guarded(before, backups, missed, staged[n].finalPath)
    ensures staged[n].temporaryPath in files
    ensures InProgress(Renamed(files, staged[n].temporaryPath, staged[n].finalPath), before, staged, data, backups,
                       installed + {staged[n].finalPath}, missed)
  {
    hide IsFinal, BackedUp;
    var temporary, final := staged[n].temporaryPath, staged[n].finalPath;
    assert Placed(files, before, staged[n], data[n], backups, installed, missed);
    var files' := Renamed(files, temporary, final);
    forall k | 0 <= k < |staged|
      ensures Placed(files', before, staged[k], data[k], backups, installed + {final}, missed)
    {
      assert Placed(files, before, staged[k], data[k], backups, installed, missed);
      NamesDiffer(staged, k, n);
    }
    forall i | 0 <= i < |backups| ensures BackupKept(files', before, backups[i]) {
      assert BackupKept(files, before, backups[i]);
      assert backups[i].backupPath != temporary;
    }
    OwnFinal(staged, n);
  }

  // ---------------------------------------------------------------------------------------------
  // The transaction
  // ---------------------------------------------------------------------------------------------

  class OutputTransaction {
    const fs: FileSystem

    var staged: seq<StagedFile>
    var finalPaths: set<Path>
    var backups: seq<Backup>
    var installed: set<Path>
    var committed: bool

    /** Temporary names of others, there before the transaction. */
    ghost const foreign: set<Path>

    /** Final paths whose originals commit took to be absent, because asking whether they exist failed. */
    ghost var missed: set<Path>

    /** Names made for this transaction that it forgot when an operation on them failed. */
    ghost var leaked: set<Path>

    ghost predicate Valid()
      reads this, fs
    {
      && fs.Valid()
      && Apart(staged) && BackedApart(staged, backups)
      && Accounted(fs.files, foreign, leaked, staged, backups)
      && (committed ==> NoneStaged(fs.files, staged))
      && (forall p :: p in finalPaths <==> IsFinal(staged, p))
      && (forall k | 0 <= k < |staged| :: staged[k].temporaryPath.serial < fs.nextSerial)
      && (forall i | 0 <= i < |backups| :: backups[i].backupPath.serial < fs.nextSerial)
    }

    /** Every staged file is there, and nothing has been moved yet. */
    ghost predicate Fresh()
      reads this, fs
    {
      && backups == [] && installed == {} && missed == {} && !committed
      && forall k | 0 <= k < |staged| :: staged[k].temporaryPath in fs.files
    }

    constructor (fs: FileSystem)
      requires fs.Valid()
      ensures Valid() && Fresh() && this.fs == fs && staged == [] && leaked == {}
      ensures forall p :: p in foreign <==> p in fs.files && p.Temporary?
    {
      this.fs := fs;
      staged, finalPaths, backups, installed, committed := [], {}, [], {}, false;
      missed := {};
      foreign, leaked := set p | p in fs.files && p.Temporary?, {};
    }

    /** An original that commit took to be absent and installed an output over. */
    ghost predicate Lost(p: Path)
      reads `missed, `installed
    {
      p in missed && p in installed
    }

    /** open: a temporary file beside the final path, or an error that touches nothing but at most one new name. */
    method Open(finalPath: Path, parentExists: bool) returns (ok: bool)
      requires Valid() && Fresh() && finalPath.Output?
      modifies this, fs
      ensures Valid() && Fresh()
      ensures forall p: Path | p.Output? :: SameAt(fs.files, old(fs.files), p)
      ensures ok <==> !IsFinal(old(staged), finalPath) && parentExists && fs.failures == old(fs.failures)
      ensures fs.failures >= old(fs.failures) && (fs.failures == old(fs.failures) ==> leaked == old(leaked))
      ensures !ok ==> staged == old(staged)
      ensures ok ==>
                && |staged| == |old(staged)| + 1 && staged[..|old(staged)|] == old(staged)
                && staged[|old(staged)|].finalPath == finalPath
                && Contents(fs.files, staged[|old(staged)|]) == []
      ensures forall k | 0 <= k < |old(staged)| ::
                Contents(fs.files, old(staged)[k]) == Contents(old(fs.files), old(staged)[k])
    {
      hide IsFinal, Apart, Accounted, Unused;
      if finalPath in finalPaths || !parentExists {
        return false;
      }
      var temporary := OpenTemporary();
      if temporary.None? {
        return false;
      }
      ghost var before, file := staged, StagedFile(finalPath, temporary.value, [], false);
      NameStaged(fs.files, foreign, leaked, staged, file);
      leaked := leaked - {temporary.value};
      StagedOneMore(before, file);
      ApartOneMore(before, file);
      staged := staged + [StagedFile(finalPath, temporary.value, [], false)];
      finalPaths := finalPaths + {finalPath};
      assert forall k | 0 <= k < |before| :: staged[k] == before[k];
      return true;
    }

    /** mkstemp and fdopen: an empty file under a new name, not yet on record. */
    method OpenTemporary() returns (path: Option<Path>)
      requires Valid() && Fresh()
      modifies `leaked, fs
      ensures Valid() && Fresh()
      ensures forall p | p in old(fs.files) :: SameAt(fs.files, old(fs.files), p)
      ensures forall p: Path | p.Output? :: SameAt(fs.files, old(fs.files), p)
      ensures fs.failures >= old(fs.failures) && (path.None? <==> fs.failures > old(fs.failures))
      ensures path.Some? ==>
                && Unused(staged, backups, path.value) && path.value.serial < fs.nextSerial
                && FileHolds(fs.files, path.value, [])
                && path.value !in old(leaked) && leaked == old(leaked) + {path.value}
    {
      hide IsFinal, Apart, BackedApart, Accounted;
      path := fs.MakeTemporary();
      if path.None? {
        return;
      }
      UnusedName(staged, backups, path.value);
      NameMade(old(fs.files), foreign, leaked, staged, backups, path.value);
      leaked := leaked + {path.value};
      var fails := fs.Fails();
      if fails {
        ghost var files := fs.files;
        var removal := fs.Unlink(path.value);
        if removal.Removed? {
          NameDropped(files, foreign, leaked, staged, backups, path.value);
          leaked := leaked - {path.value};
        }
        return None;
      }
    }

    /** Writing to a staged stream fills its buffer. */
    method Write(k: nat, data: Bytes)
      requires Valid() && Fresh() && k < |staged|
      modifies `staged
      ensures Valid() && Fresh() && |staged| == |old(staged)|
      ensures staged[k] == old(staged)[k].(buffer := old(staged)[k].buffer + data)
      ensures Contents(fs.files, staged[k]) == Contents(fs.files, old(staged)[k]) + data
      ensures forall j | 0 <= j < |staged| && j != k :: staged[j] == old(staged)[j]
    {
      var file := staged[k];
      ghost var before := staged;
      staged := staged[k := file.(buffer := file.buffer + data)];
      SamePaths(before, staged);
      NamesKept(fs.files, fs.files, foreign, leaked, before, staged, backups);
      assert Contents(fs.files, staged[k]) == Contents(fs.files, before[k]) + data;
    }

    /** One stream written out, synced and closed. */
    method CloseStream(k: nat) returns (ok: bool)
      requires Valid() && Fresh() && k < |staged|
      modifies `staged, fs`files, fs`failures
      ensures Valid() && Fresh() && PathsAgree(staged, old(staged))
      ensures fs.failures == old(fs.failures) + (if ok then 0 else 1)
      ensures Written(fs.files, staged, old(fs.files), old(staged))
      ensures forall j | 0 <= j < |staged| && j != k :: staged[j].buffer == old(staged)[j].buffer
      ensures ok ==> staged[k].buffer == []
    {
      hide IsFinal, Contents, BackedApart, Apart, Written, Accounted;
      var file := staged[k];
      NamesDiffer(staged, k, k);
      ghost var earlier := staged;
      var written, done := fs.WriteOut(file.temporaryPath, file.buffer);
      WrittenOut(old(fs.files), fs.files, earlier, k, written);
      var syncFails, closeFails := false, false;
      if done {
        syncFails := fs.Fails();
        if !syncFails {
          closeFails := fs.Fails();
        }
      }
      ok := done && !syncFails && !closeFails;
      staged := staged[k := file.(buffer := file.buffer[written..], closed := file.closed || (done && !syncFails))];
      SamePaths(earlier, staged);
      NamesKept(old(fs.files), fs.files, foreign, leaked, earlier, staged, backups);
    }

    /** The first loop of commit: every stream is written out, synced and closed. */
    method CloseStreams() returns (ok: bool)
      requires Valid() && Fresh()
      modifies `staged, fs`files, fs`failures
      ensures Valid() && Fresh() && PathsAgree(staged, old(staged))
      ensures fs.failures == old(fs.failures) + (if ok then 0 else 1)
      ensures Written(fs.files, staged, old(fs.files), old(staged))
      ensures ok ==> forall k | 0 <= k < |staged| :: staged[k].buffer == []
    {
      hide IsFinal, Contents, BackedApart, Apart, Written, Accounted;
      NothingWritten(fs.files, staged);
      for k := 0 to |staged|
        invariant Valid() && Fresh() && PathsAgree(staged, old(staged)) && fs.failures == old(fs.failures)
        invariant Written(fs.files, staged, old(fs.files), old(staged))
        invariant forall j | 0 <= j < k :: staged[j].buffer == []
      {
        ghost var files, earlier := fs.files, staged;
        var done := CloseStream(k);
        WrittenTransitive(fs.files, staged, files, earlier, old(fs.files), old(staged));
        if !done {
          return false;
        }
      }
      return true;
    }

    /** Every original is moved to a backup, but for those taken to be absent; on an error some are not. */
    method BackUpOriginals(ghost before: Files, ghost data: seq<Bytes>) returns (ok: bool)
      requires Valid() && backups == [] && installed == {} && missed == {} && !committed && |data| == |staged|
      requires InProgress(fs.files, before, staged, data, backups, installed, missed)
      modifies `backups, `leaked, `missed, fs
      ensures Valid() && InProgress(fs.files, before, staged, data, backups, installed, missed)
      ensures OthersKept(fs.files, old(fs.files), staged)
      ensures fs.failures >= old(fs.failures) + |missed| && (ok <==> fs.failures == old(fs.failures) + |missed|)
      ensures ok ==> leaked == old(leaked)
      ensures ok ==> forall k | 0 <= k < |staged| :: Guarded(before, backups, missed, staged[k].finalPath)
    {
      hide IsFinal, InProgress, BackedUp, Apart, BackedApart, OthersKept, Unused, Accounted;
      NothingBackedUp();
      NothingElse(fs.files, staged);
      for n := 0 to |staged|
        invariant Valid() && InProgress(fs.files, before, staged, data, backups, installed, missed)
        invariant OthersKept(fs.files, old(fs.files), staged)
        invariant fs.failures == old(fs.failures) + |missed| && leaked == old(leaked)
        invariant forall k | 0 <= k < n :: Guarded(before, backups, missed, staged[k].finalPath)
        invariant forall k | n <= k < |staged| ::
                    !BackedUp(backups, staged[k].finalPath) && staged[k].finalPath !in missed
      {
        ghost var files := fs.files;
        var ok' := BackUpNext(n, before, data);
        OthersTransitive(fs.files, files, old(fs.files), staged);
        OtherFinals(staged, n);
        if !ok' {
          return false;
        }
      }
      return true;
    }

    /** One turn of the loop: an original that is seen is moved, one that is not is left where it is. */
    method BackUpNext(n: nat, ghost before: Files, ghost data: seq<Bytes>) returns (ok: bool)
      requires Valid() && !committed && n < |staged| == |data| && installed == {}
      requires InProgress(fs.files, before, staged, data, backups, installed, missed)
      requires !BackedUp(backups, staged[n].finalPath) && staged[n].finalPath !in missed
      modifies `backups, `leaked, `missed, fs
      ensures Valid() && InProgress(fs.files, before, staged, data, backups, installed, missed)
      ensures OthersKept(fs.files, old(fs.files), staged)
      ensures fs.failures >= old(fs.failures) + |missed| - |old(missed)|
      ensures ok <==> fs.failures == old(fs.failures) + |missed| - |old(missed)|
      ensures ok ==> leaked == old(leaked) && Guarded(before, backups, missed, staged[n].finalPath)
      ensures forall p | p != staged[n].finalPath ::
                (p in missed <==> p in old(missed)) && (BackedUp(backups, p) <==> BackedUp(old(backups), p))
    {
      hide IsFinal, InProgress, BackedUp, Apart, BackedApart, OthersKept, Unused, Accounted;
      NothingElse(fs.files, staged);
      var final := staged[n].finalPath;
      var present := fs.Exists(final);
      ok := true;
      if present {
        ok := BackUpOne(n, before, data);
      } else if final in fs.files {
        MissProgress(fs.files, before, staged, data, backups, installed, missed, n);
        missed := missed + {final};
      } else {
        AbsentBefore(fs.files, before, staged, data, backups, installed, missed, n);
      }
    }

    /** A backup name, not yet on record; when closing it fails its empty file stays behind. */
    method ReserveBackup(ghost before: Files, ghost data: seq<Bytes>) returns (path: Option<Path>)
      requires Valid() && !committed && |data| == |staged|
      requires InProgress(fs.files, before, staged, data, backups, installed, missed)
      modifies `leaked, fs
      ensures Valid() && InProgress(fs.files, before, staged, data, backups, installed, missed)
      ensures forall p: Path | p.Output? :: SameAt(fs.files, old(fs.files), p)
      ensures fs.failures == old(fs.failures) + (if path.None? then 1 else 0)
      ensures path.Some? ==>
                && path.value.Temporary? && Unused(staged, backups, path.value) && path.value.serial < fs.nextSerial
                && path.value !in old(leaked) && leaked == old(leaked) + {path.value}
    {
      hide IsFinal, InProgress, BackedUp, Accounted;
      path := fs.MakeTemporary();
      if path.None? {
        return;
      }
      UnusedName(staged, backups, path.value);
      NameMade(old(fs.files), foreign, leaked, staged, backups, path.value);
      leaked := leaked + {path.value};
      AgreeingProgress(old(fs.files), fs.files, before, staged, data, backups, installed, missed, path.value);
      var closeFails := fs.Fails();
      if closeFails {
        return None;
      }
    }

    /** One original to one backup; on an error the backup name may stay behind, off the record. */
    method BackUpOne(n: nat, ghost before: Files, ghost data: seq<Bytes>) returns (ok: bool)
      requires Valid() && !committed && n < |staged| == |data| && installed == {} && staged[n].finalPath in fs.files
      requires InProgress(fs.files, before, staged, data, backups, installed, missed)
      requires !BackedUp(backups, staged[n].finalPath) && staged[n].finalPath !in missed
      modifies `backups, `leaked, fs
      ensures Valid() && InProgress(fs.files, before, staged, data, backups, installed, missed)
      ensures OthersKept(fs.files, old(fs.files), staged)
      ensures fs.failures >= old(fs.failures) && (ok <==> fs.failures == old(fs.failures))
      ensures ok ==> leaked == old(leaked)
      ensures forall p :: BackedUp(backups, p) <==> BackedUp(old(backups), p) || (ok && p == staged[n].finalPath)
    {
      hide IsFinal, InProgress, BackedUp, Apart, BackedApart, OthersKept, Unused, AgreeBut, Accounted;
      var final := staged[n].finalPath;
      NamesDiffer(staged, n, n);
      var reserved := ReserveBackup(before, data);
      OutputsKept(fs.files, old(fs.files), staged);
      if reserved.None? {
        return false;
      }
      var backupPath := reserved.value;
      ghost var files := fs.files;
      assert SameAt(files, old(fs.files), final);
      var replaced := fs.Replace(final, backupPath);
      if !replaced {
        var removal := fs.Unlink(backupPath);
        if removal.Removed? {
          NameDropped(files, foreign, leaked, staged, backups, backupPath);
          leaked := leaked - {backupPath};
        }
        Discarded(files, fs.files, before, staged, data, backups, installed, missed, backupPath);
        OthersTransitive(fs.files, files, old(fs.files), staged);
        return false;
      }
      BackupProgress(files, before, staged, data, backups, installed, missed, n, backupPath);
      OthersMoved(files, staged, n, backupPath);
      OthersTransitive(fs.files, files, old(fs.files), staged);
      BackedUpOne(backups, Backup(final, backupPath));
      NameBacked(files, foreign, leaked, staged, backups, Backup(final, backupPath));
      leaked := leaked - {backupPath};
      backups := backups + [Backup(final, backupPath)];
      return true;
    }

    /** Every staged file is moved to its final path; on an error some are not. */
    method InstallStaged(ghost before: Files, ghost data: seq<Bytes>) returns (ok: bool)
      requires Valid() && installed == {} && !committed && |data| == |staged|
      requires InProgress(fs.files, before, staged, data, backups, installed, missed)
      requires forall k | 0 <= k < |staged| :: Guarded(before, backups, missed, staged[k].finalPath)
      modifies `installed, fs`files, fs`failures
      ensures Valid() && InProgress(fs.files, before, staged, data, backups, installed, missed)
      ensures OthersKept(fs.files, old(fs.files), staged)
      ensures fs.failures == old(fs.failures) + (if ok then 0 else 1)
      ensures ok ==> NoneStaged(fs.files, staged) && forall k | 0 <= k < |staged| :: staged[k].finalPath in installed
    {
      hide IsFinal, InProgress, BackedUp, BackedApart, OthersKept, Accounted;
      NothingElse(fs.files, staged);
      for n := 0 to |staged|
        invariant Valid() && InProgress(fs.files, before, staged, data, backups, installed, missed)
        invariant OthersKept(fs.files, old(fs.files), staged) && fs.failures == old(fs.failures)
        invariant forall k | 0 <= k < n :: staged[k].finalPath in installed && staged[k].temporaryPath !in fs.files
        invariant forall k | n <= k < |staged| :: staged[k].finalPath !in installed
      {
        var file := staged[n];
        ghost var files := fs.files;
        InstallProgress(files, before, staged, data, backups, installed, missed, n);
        NamesDiffer(staged, n, n);
        OthersMoved(files, staged, n, file.temporaryPath);
        NamesMoved(files, foreign, leaked, staged, backups, file.temporaryPath, file.finalPath);
        var replaced := fs.Replace(file.temporaryPath, file.finalPath);
        if !replaced {
          return false;
        }
        OthersTransitive(fs.files, files, old(fs.files), staged);
        installed := installed + {file.finalPath};
        OtherFinals(staged, n);
      }
      return true;
    }

    /** _rollback's first loop: outputs that were installed over nothing are removed. */
    method RemoveInstalled(ghost before: Files) returns (errors: nat)
      requires Valid() && !committed
      requires AllKept(fs.files, before, backups) && Untouched(fs.files, before, staged, backups, installed, missed)
      requires OthersKept(fs.files, before, staged)
      requires forall p | p in installed :: IsFinal(staged, p) && Guarded(before, backups, missed, p)
      modifies fs`files, fs`failures
      ensures fs.failures == old(fs.failures) + errors
      ensures Valid() && AllKept(fs.files, before, backups)
      ensures Untouched(fs.files, before, staged, backups, installed, missed)
      ensures OthersKept(fs.files, before, staged)
      ensures errors == 0 ==> forall p | p in installed && !BackedUp(backups, p) :: p !in fs.files
    {
      hide IsFinal, BackedUp, BackedApart, Apart, OthersKept, BackupKept, Accounted;
      errors := 0;
      ghost var backedUp := set i | 0 <= i < |backups| :: backups[i].finalPath;
      var rest := set p | p in installed && !IsBackedUp(p);
      while rest != {}
        invariant rest <= installed && (forall p | p in rest :: !BackedUp(backups, p))
        invariant fs.failures == old(fs.failures) + errors
        invariant Valid() && AllKept(fs.files, before, backups)
        invariant Untouched(fs.files, before, staged, backups, installed, missed)
        invariant OthersKept(fs.files, before, staged)
        invariant errors == 0 ==> forall p | p in installed && !BackedUp(backups, p) && p !in rest :: p !in fs.files
        decreases |rest|
      {
        var p :| p in rest;
        ghost var files := fs.files;
        var removal := fs.Unlink(p);
        FinalIsOutput(staged, p);
        RemovedInstalled(files, fs.files, before, staged, backups, installed, missed, p);
        NamesKept(files, fs.files, foreign, leaked, staged, staged, backups);
        if removal.Failed? {
          errors := errors + 1;
        }
        rest := rest - {p};
      }
    }

    /** Whether a final path is among the backups. */
    function IsBackedUp(p: Path): (r: bool)
      reads `backups
      ensures r <==> BackedUp(backups, p)
    {
      exists i :: 0 <= i < |backups| && backups[i].finalPath == p
    }

    /** _rollback's second loop: the originals go back, last backup first. */
    method RestoreBackups(ghost before: Files) returns (errors: nat)
      requires Valid() && !committed
      requires AllKept(fs.files, before, backups) && Untouched(fs.files, before, staged, backups, installed, missed)
      requires OthersKept(fs.files, before, staged)
      requires forall i | 0 <= i < |backups| :: IsFinal(staged, backups[i].finalPath)
      modifies fs`files, fs`failures
      ensures fs.failures == old(fs.failures) + errors && (errors == 0 ==> NoneBacked(fs.files, backups))
      ensures Valid() && Untouched(fs.files, before, staged, backups, installed, missed)
      ensures OthersKept(fs.files, before, staged)
      ensures forall i | 0 <= i < |backups| :: KeptOrRestored(fs.files, before, backups[i])
      ensures errors == 0 ==> forall i | 0 <= i < |backups| :: Restored(fs.files, before, backups[i])
      ensures forall p: Path | p.Output? && p !in old(fs.files) && !BackedUp(backups, p) :: p !in fs.files
    {
      hide IsFinal, BackedUp, BackedApart, Apart, OthersKept, BackupKept, Untouched, Restored, Accounted;
      errors := 0;
      var n := |backups|;
      while n > 0
        invariant 0 <= n <= |backups| && Valid() && Untouched(fs.files, before, staged, backups, installed, missed)
        invariant fs.failures == old(fs.failures) + errors
        invariant errors == 0 ==> forall i | n <= i < |backups| :: backups[i].backupPath !in fs.files
        invariant OthersKept(fs.files, before, staged)
        invariant forall i | 0 <= i < n :: BackupKept(fs.files, before, backups[i])
        invariant forall i | n <= i < |backups| :: KeptOrRestored(fs.files, before, backups[i])
        invariant errors == 0 ==> forall i | n <= i < |backups| :: Restored(fs.files, before, backups[i])
        invariant forall p: Path | p.Output? && p !in old(fs.files) && !BackedUp(backups, p) :: p !in fs.files
      {
        n := n - 1;
        var backup := backups[n];
        ghost var files := fs.files;
        RestoreOne(files, before, staged, backups, installed, missed, n);
        NamesMoved(files, foreign, leaked, staged, backups, backup.backupPath, backup.finalPath);
        var replaced := fs.Replace(backup.backupPath, backup.finalPath);
        if !replaced {
          errors := errors + 1;
        }
      }
    }

    /** _rollback. */
    method Rollback(ghost before: Files, ghost data: seq<Bytes>) returns (errors: nat)
      requires Valid() && !committed
      requires |data| == |staged| && InProgress(fs.files, before, staged, data, backups, installed, missed)
      requires OthersKept(fs.files, before, staged)
      modifies fs`files, fs`failures
      ensures fs.failures == old(fs.failures) + errors && (errors == 0 ==> NoneBacked(fs.files, backups))
      ensures Valid() && OthersKept(fs.files, before, staged)
      ensures forall p | p in finalPaths :: Lost(p) || Survives(fs.files, before, backups, p)
      ensures errors == 0 ==>
                forall p | p in finalPaths ::
                  if Lost(p) then p in before && p !in fs.files else SameAt(fs.files, before, p)
    {
      hide InProgress, IsFinal, BackedUp, BackedApart, Apart, OthersKept, AllKept, Untouched, Restored, KeptOrRestored;
      hide Accounted;
      RollbackStart(fs.files, before, staged, data, backups, installed, missed);
      var removalErrors := RemoveInstalled(before);
      ghost var files := fs.files;
      var restoreErrors := RestoreBackups(before);
      errors := removalErrors + restoreErrors;
      forall p | p in finalPaths
        ensures Lost(p) || Survives(fs.files, before, backups, p)
        ensures errors == 0 ==> if Lost(p) then p in before && p !in fs.files else SameAt(fs.files, before, p)
      {
        FinalIsOutput(staged, p);
        RolledBackAt(files, fs.files, before, staged, backups, installed, missed, p);
      }
    }

    /** The unlinking of backups at the end of commit; an error other than a missing file stops it. */
    method DropBackups() returns (ok: bool)
      requires Valid()
      modifies fs`files, fs`failures
      ensures Valid() && fs.failures == old(fs.failures) + (if ok then 0 else 1)
      ensures ok ==> NoneBacked(fs.files, backups)
      ensures forall p: Path | p.Output? :: SameAt(fs.files, old(fs.files), p)
    {
      hide IsFinal, Apart, BackedApart, Accounted, Unused, SameNames;
      for i := 0 to |backups|
        invariant Valid() && fs.failures == old(fs.failures)
        invariant forall j | 0 <= j < i :: backups[j].backupPath !in fs.files
        invariant forall p: Path | p.Output? :: SameAt(fs.files, old(fs.files), p)
      {
        BackupsDiffer(staged, backups, i, i);
        ghost var files := fs.files;
        var removal := fs.Unlink(backups[i].backupPath);
        OwnBackup(staged, backups, i);
        OwnName(files, fs.files, staged, backups, backups[i].backupPath);
        NamesKept(files, fs.files, foreign, leaked, staged, staged, backups);
        if removal.Failed? {
          return false;
        }
      }
      return true;
    }

    /**
     * commit. Either every final path ends up with what was written to its stream, or the error is raised with every
     * final path as it was; only when the rollback itself fails are originals left at their backups, and that takes
     * two failing operations. The exception is an original whose existence went unnoticed: when an output has been
     * installed over it the rollback removes that output, and the original is gone. It is committed if and only if
     * nothing fails beyond that.
     */
    method Commit() returns (exit: CommitExit)
      requires Valid() && Fresh()
      modifies this, fs
      ensures Valid() && PathsAgree(staged, old(staged)) && finalPaths == old(finalPaths)
      ensures committed == (exit.Committed? || exit.CommittedNotCleaned?)
      ensures fs.failures >= old(fs.failures) + |missed|
      ensures exit.Committed? <==> fs.failures == old(fs.failures) + |missed|
      ensures exit.RollbackFailed? ==> fs.failures >= old(fs.failures) + |missed| + 2
      ensures exit.Committed? ==> leaked == old(leaked)
      ensures exit.Committed? || exit.StagingFailed? || exit.RolledBack? ==> NoneBacked(fs.files, backups)
      ensures forall p: Path | p.Output? && p !in finalPaths :: SameAt(fs.files, old(fs.files), p)
      ensures committed ==>
                forall k | 0 <= k < |staged| ::
                  FileHolds(fs.files, staged[k].finalPath, Contents(old(fs.files), old(staged)[k]))
      ensures forall p | p in missed :: p in finalPaths && p in old(fs.files)
      ensures exit.StagingFailed? ==> missed == {} && forall p | p in finalPaths :: SameAt(fs.files, old(fs.files), p)
      ensures exit.RolledBack? ==>
                forall p | p in finalPaths ::
                  if Lost(p) then p !in fs.files else SameAt(fs.files, old(fs.files), p)
      ensures exit.RolledBack? ==>
                ((forall p | p in finalPaths :: SameAt(fs.files, old(fs.files), p)) <==> forall p :: !Lost(p))
      ensures exit.RollbackFailed? ==>
                forall p | p in finalPaths && !Lost(p) :: Survives(fs.files, old(fs.files), backups, p)
    {
      hide IsFinal, InProgress, BackedUp, BackedApart, Apart, OthersKept, Survives, Contents, Written, Accounted;
      ghost var before, data := fs.files, AllContents(fs.files, staged);
      FinalPaths(staged, finalPaths);
      var closed := CloseStreams();
      SamePaths(old(staged), staged);
      WrittenSame(fs.files, staged, before, old(staged));
      if !closed {
        return StagingFailed;
      }
      WrittenWhole(fs.files, staged, before, old(staged));
      exit := InstallAll(before, data);
    }

    /** commit once the streams are closed. */
    method InstallAll(ghost before: Files, ghost data: seq<Bytes>) returns (exit: CommitExit)
      requires Valid() && Fresh() && |data| == |staged|
      requires forall p: Path | p.Output? :: SameAt(fs.files, before, p)
      requires forall k | 0 <= k < |staged| :: FileHolds(fs.files, staged[k].temporaryPath, data[k])
      modifies `backups, `installed, `missed, `committed, `leaked, fs
      ensures Valid() && !exit.StagingFailed?
      ensures fs.failures >= old(fs.failures) + |missed|
      ensures exit.Committed? <==> fs.failures == old(fs.failures) + |missed|
      ensures exit.RollbackFailed? ==> fs.failures >= old(fs.failures) + |missed| + 2
      ensures exit.Committed? ==> leaked == old(leaked)
      ensures exit.Committed? || exit.RolledBack? ==> NoneBacked(fs.files, backups)
      ensures committed == (exit.Committed? || exit.CommittedNotCleaned?)
      ensures forall p: Path | p.Output? && p !in finalPaths :: SameAt(fs.files, before, p)
      ensures committed ==> forall k | 0 <= k < |staged| :: FileHolds(fs.files, staged[k].finalPath, data[k])
      ensures forall p | p in missed :: p in finalPaths && p in before
      ensures exit.RolledBack? ==>
                forall p | p in finalPaths :: if Lost(p) then p !in fs.files else SameAt(fs.files, before, p)
      ensures exit.RollbackFailed? ==>
                forall p | p in finalPaths && !Lost(p) :: Survives(fs.files, before, backups, p)
    {
      hide IsFinal, InProgress, BackedUp, BackedApart, Apart, OthersKept, Survives, Accounted, NoneStaged;
      ProgressStart(fs.files, before, staged, data);
      ghost var files := fs.files;
      OutputsKept(files, before, staged);
      var done := BackUpOriginals(before, data);
      OthersTransitive(fs.files, files, before, staged);
      if done {
        files := fs.files;
        done := InstallStaged(before, data);
        OthersTransitive(fs.files, files, before, staged);
      }
      MissedFinals(fs.files, before, staged, data, backups, installed, missed, finalPaths);
      if !done {
        var errors := Rollback(before, data);
        OthersAre(fs.files, before, staged, finalPaths);
        return if errors > 0 then RollbackFailed else RolledBack;
      }
      InstalledHolds(fs.files, before, staged, data, backups, installed, missed);
      OthersAre(fs.files, before, staged, finalPaths);
      committed := true;
      files := fs.files;
      var cleaned := DropBackups();
      FinalsStay(files, fs.files, staged, data);
      return if cleaned then Committed else CommittedNotCleaned;
    }

    /** The stream of one staged file is closed, if it is not. */
    method CloseAtExit(k: nat) returns (errors: nat)
      requires Valid() && k < |staged|
      modifies `staged, fs`files, fs`failures
      ensures Valid() && PathsAgree(staged, old(staged)) && fs.failures == old(fs.failures) + errors
      ensures forall p | p != staged[k].temporaryPath :: SameAt(fs.files, old(fs.files), p)
      ensures staged[k].temporaryPath in fs.files ==> staged[k].temporaryPath in old(fs.files)
      ensures staged[k].closed
    {
      hide IsFinal, Apart, BackedApart, Accounted, Unused;
      errors := 0;
      ghost var earlier := staged;
      var file := staged[k];
      if !file.closed {
        var done;
        if file.temporaryPath in fs.files {
          var written;
          written, done := fs.WriteOut(file.temporaryPath, file.buffer);
        } else {
          var fails := fs.Fails();
          done := !fails;
        }
        if !done {
          errors := errors + 1;
        }
        staged := staged[k := file.(buffer := [], closed := true)];
        SamePaths(earlier, staged);
      }
      NamesKept(old(fs.files), fs.files, foreign, leaked, earlier, staged, backups);
    }

    /** One staged file on leaving: its stream is closed and, unless committed, its temporary file removed. */
    method Discard(k: nat) returns (errors: nat)
      requires Valid() && k < |staged|
      modifies `staged, fs`files, fs`failures
      ensures Valid() && PathsAgree(staged, old(staged)) && fs.failures == old(fs.failures) + errors
      ensures forall p | p != staged[k].temporaryPath :: SameAt(fs.files, old(fs.files), p)
      ensures errors == 0 ==> staged[k].temporaryPath !in fs.files
      ensures staged[k].closed
    {
      hide IsFinal, Apart, BackedApart, Accounted, Unused;
      errors := CloseAtExit(k);
      NamesDiffer(staged, k, k);
      if !committed {
        ghost var files, path := fs.files, staged[k].temporaryPath;
        var removal := fs.Unlink(staged[k].temporaryPath);
        OwnTemporary(staged, backups, k);
        OwnName(files, fs.files, staged, backups, path);
        NamesKept(files, fs.files, foreign, leaked, staged, staged, backups);
        forall p | p != path ensures SameAt(fs.files, old(fs.files), p) {
          assert SameAt(files, old(fs.files), p);
        }
        if removal.Failed? {
          errors := errors + 1;
        }
      }
    }

    /**
     * __exit__. No output path changes; without a commit the backups are left alone, so what survived a failed
     * rollback still does. Without an error the temporary names left are those of others, those that failing operations
     * had left off the record, and without a commit the backups that a rollback could not put back.
     */
    method Leave() returns (errors: nat)
      requires Valid()
      modifies `staged, fs`files, fs`failures
      ensures Valid() && PathsAgree(staged, old(staged)) && fs.failures == old(fs.failures) + errors
      ensures forall p: Path | p.Output? :: SameAt(fs.files, old(fs.files), p)
      ensures !committed ==>
                forall before: Files, p: Path | p.Output? && Survives(old(fs.files), before, backups, p) ::
                  Survives(fs.files, before, backups, p)
      ensures errors == 0 ==>
                forall p: Path | p.Temporary? ::
                  p in fs.files <==>
                  p in foreign || p in leaked || (!committed && p in old(fs.files) && IsBackup(backups, p))
    {
      hide IsFinal, Apart, BackedApart, Survives, Accounted, IsBackup;
      errors := 0;
      for k := 0 to |staged|
        invariant Valid() && PathsAgree(staged, old(staged)) && fs.failures == old(fs.failures) + errors
        invariant forall p | NotStaged(staged, p) :: SameAt(fs.files, old(fs.files), p)
        invariant errors == 0 ==> forall j | 0 <= j < k :: staged[j].temporaryPath !in fs.files
      {
        ghost var mid, earlier := fs.files, staged;
        var more := Discard(k);
        DiscardedOne(fs.files, mid, old(fs.files), staged, earlier, k);
        errors := errors + more;
      }
      ghost var files := fs.files;
      OutputsNotStaged(staged, backups);
      if committed {
        var more := RemoveBackups();
        errors := errors + more;
      } else {
        SurvivorsStay(old(fs.files), fs.files, staged, backups);
      }
      if errors == 0 {
        NamesLeft(old(fs.files), fs.files, foreign, leaked, staged, backups, committed);
      }
    }

    /** The backups that are still there when a committed transaction is left. */
    method RemoveBackups() returns (errors: nat)
      requires Valid()
      modifies fs`files, fs`failures
      ensures Valid() && fs.failures == old(fs.failures) + errors
      ensures forall p: Path | p.Output? :: SameAt(fs.files, old(fs.files), p)
      ensures NoneStaged(old(fs.files), staged) ==> NoneStaged(fs.files, staged)
      ensures errors == 0 ==> NoneBacked(fs.files, backups)
    {
      hide IsFinal, Apart, BackedApart, Accounted, Unused, SameNames;
      errors := 0;
      for i := 0 to |backups|
        invariant Valid() && fs.failures == old(fs.failures) + errors
        invariant forall p: Path | p.Output? :: SameAt(fs.files, old(fs.files), p)
        invariant NoneStaged(old(fs.files), staged) ==> NoneStaged(fs.files, staged)
        invariant errors == 0 ==> forall j | 0 <= j < i :: backups[j].backupPath !in fs.files
      {
        BackupsDiffer(staged, backups, i, i);
        ghost var files := fs.files;
        var removal := fs.Unlink(backups[i].backupPath);
        OwnBackup(staged, backups, i);
        OwnName(files, fs.files, staged, backups, backups[i].backupPath);
        NamesKept(files, fs.files, foreign, leaked, staged, staged, backups);
        if removal.Failed? {
          errors := errors + 1;
        }
      }
    }
  }

  // ---------------------------------------------------------------------------------------------
  // Temporary names
  // ---------------------------------------------------------------------------------------------

  ghost predicate IsBackup(backups: seq<Backup>, p: Path) {
    exists i :: 0 <= i < |backups| && backups[i].backupPath == p
  }

  lemma NamesKept(
    files: Files, files': Files, foreign: set<Path>, leaked: set<Path>, staged: seq<StagedFile>,
    staged': seq<StagedFile>, backups: seq<Backup>)
    requires Accounted(files, foreign, leaked, staged, backups) && PathsAgree(staged', staged)
    requires SameNames(files, files', staged, backups)
    ensures Accounted(files', foreign, leaked, staged', backups)
  {
    forall p ensures p in foreign || p in leaked <==> p in files' && Unused(staged', backups, p) {
      assert Unused(staged', backups, p) <==> Unused(staged, backups, p);
      assert p in foreign || p in leaked <==> p in files && Unused(staged, backups, p);
    }
  }

  /** Removing one of the transaction's own names, or failing to. */
  lemma OwnName(files: Files, files': Files, staged: seq<StagedFile>, backups: seq<Backup>, p: Path)
    requires !Unused(staged, backups, p) && (files' == files || files' == Without(files, p))
    ensures SameNames(files, files', staged, backups)
  {
    hide Unused;
  }

  lemma OwnTemporary(staged: seq<StagedFile>, backups: seq<Backup>, k: nat)
    requires k < |staged|
    ensures !Unused(staged, backups, staged[k].temporaryPath)
  {
  }

  lemma OwnBackup(staged: seq<StagedFile>, backups: seq<Backup>, i: nat)
    requires i < |backups|
    ensures !Unused(staged, backups, backups[i].backupPath)
  {
  }

  /** Moving a staged file or a backup to an output path. */
  lemma NamesMoved(
    files: Files, foreign: set<Path>, leaked: set<Path>, staged: seq<StagedFile>, backups: seq<Backup>, source: Path,
    target: Path)
    requires Accounted(files, foreign, leaked, staged, backups) && source in files && target.Output?
    requires !Unused(staged, backups, source)
    ensures Accounted(Renamed(files, source, target), foreign, leaked, staged, backups)
  {
    var files' := Renamed(files, source, target);
    forall p ensures p in foreign || p in leaked <==> p in files' && Unused(staged, backups, p) {
      assert p in foreign || p in leaked <==> p in files && Unused(staged, backups, p);
    }
  }

  lemma NameMade(
    files: Files, foreign: set<Path>, leaked: set<Path>, staged: seq<StagedFile>, backups: seq<Backup>, p: Path)
    requires Accounted(files, foreign, leaked, staged, backups) && p !in files && Unused(staged, backups, p)
    ensures Accounted(files[p := []], foreign, leaked + {p}, staged, backups) && p !in leaked
  {
    hide Unused;
  }

  lemma NameDropped(
    files: Files, foreign: set<Path>, leaked: set<Path>, staged: seq<StagedFile>, backups: seq<Backup>, p: Path)
    requires Accounted(files, foreign, leaked, staged, backups) && p in leaked
    ensures Accounted(Without(files, p), foreign, leaked - {p}, staged, backups)
  {
    hide Unused;
  }

  lemma NameStaged(
    files: Files, foreign: set<Path>, leaked: set<Path>, staged: seq<StagedFile>, file: StagedFile)
    requires Accounted(files, foreign, leaked, staged, []) && file.temporaryPath in leaked
    ensures Accounted(files, foreign, leaked - {file.temporaryPath}, staged + [file], [])
  {
    var all := staged + [file];
    forall p ensures Unused(all, [], p) <==> Unused(staged, [], p) && p != file.temporaryPath {
      assert all[|staged|] == file;
      if Unused(all, [], p) {
        forall k | 0 <= k < |staged| ensures staged[k].temporaryPath != p {
          assert all[k] == staged[k];
        }
      }
    }
  }

  lemma NameBacked(
    files: Files, foreign: set<Path>, leaked: set<Path>, staged: seq<StagedFile>, backups: seq<Backup>, last: Backup)
    requires Accounted(files, foreign, leaked, staged, backups) && last.backupPath in leaked
    requires last.finalPath.Output? && last.finalPath in files
    ensures Accounted(Renamed(files, last.finalPath, last.backupPath), foreign, leaked - {last.backupPath}, staged,
                      backups + [last])
  {
    var all := backups + [last];
    forall p ensures Unused(staged, all, p) <==> Unused(staged, backups, p) && p != last.backupPath {
      assert all[|backups|] == last;
      if Unused(staged, all, p) {
        forall i | 0 <= i < |backups| ensures backups[i].backupPath != p {
          assert all[i] == backups[i];
        }
      }
    }
  }

  /** The temporary names that are left at the end. */
  lemma NamesLeft(
    files0: Files, files: Files, foreign: set<Path>, leaked: set<Path>, staged: seq<StagedFile>, backups: seq<Backup>,
    committed: bool)
    requires Accounted(files, foreign, leaked, staged, backups) && NoneStaged(files, staged)
    requires committed ==> NoneBacked(files, backups)
    requires !committed ==> forall i | 0 <= i < |backups| :: SameAt(files, files0, backups[i].backupPath)
    ensures forall p: Path | p.Temporary? ::
              p in files <==>
              p in foreign || p in leaked || (!committed && p in files0 && IsBackup(backups, p))
  {
    forall p: Path | p.Temporary?
      ensures p in files <==>
              p in foreign || p in leaked || (!committed && p in files0 && IsBackup(backups, p))
    {
      assert p in foreign || p in leaked <==> p in files && Unused(staged, backups, p);
    }
  }

  lemma StagedOneMore(staged: seq<StagedFile>, last: StagedFile)
    ensures forall p :: IsFinal(staged + [last], p) <==> IsFinal(staged, p) || last.finalPath == p
  {
    var all := staged + [last];
    forall p ensures IsFinal(all, p) <==> IsFinal(staged, p) || last.finalPath == p {
      if IsFinal(staged, p) {
        var i :| 0 <= i < |staged| && staged[i].finalPath == p;
        assert all[i].finalPath == p;
      }
      assert all[|staged|] == last;
    }
  }

  lemma ApartOneMore(staged: seq<StagedFile>, last: StagedFile)
    requires Apart(staged) && !IsFinal(staged, last.finalPath) && last.finalPath.Output?
    requires Unused(staged, [], last.temporaryPath)
    ensures Apart(staged + [last])
  {
  }

  ghost predicate PathsAgree(a: seq<StagedFile>, b: seq<StagedFile>) {
    && |a| == |b|
    && forall k | 0 <= k < |a| :: a[k].finalPath == b[k].finalPath && a[k].temporaryPath == b[k].temporaryPath
  }

  lemma SamePaths(a: seq<StagedFile>, b: seq<StagedFile>)
    requires PathsAgree(a, b)
    ensures forall p :: IsFinal(a, p) <==> IsFinal(b, p)
    ensures Apart(a) ==> Apart(b)
    ensures forall backups: seq<Backup> :: BackedApart(a, backups) ==> BackedApart(b, backups)
  {
    forall p ensures IsFinal(a, p) <==> IsFinal(b, p) {
      if IsFinal(a, p) {
        var i :| 0 <= i < |a| && a[i].finalPath == p;
        assert b[i].finalPath == p;
      }
      if IsFinal(b, p) {
        var i :| 0 <= i < |b| && b[i].finalPath == p;
        assert a[i].finalPath == p;
      }
    }
  }

  /** Streams may have been written out, but none has gained or lost a byte, and no output path has changed. */
  ghost predicate Written(files: Files, staged: seq<StagedFile>, files0: Files, staged0: seq<StagedFile>)
  {
    && |staged| == |staged0|
    && (forall k | 0 <= k < |staged| :: Contents(files, staged[k]) == Contents(files0, staged0[k]))
    && (forall p: Path | p.Output? :: SameAt(files, files0, p))
  }

  lemma NothingWritten(files: Files, staged: seq<StagedFile>)
    ensures Written(files, staged, files, staged)
  {
    hide Contents;
  }

  lemma WrittenTransitive(
    files: Files, staged: seq<StagedFile>, files1: Files, staged1: seq<StagedFile>,
    files0: Files, staged0: seq<StagedFile>)
    requires Written(files, staged, files1, staged1) && Written(files1, staged1, files0, staged0)
    ensures Written(files, staged, files0, staged0)
  {
    hide Contents;
    forall p: Path | p.Output? ensures SameAt(files, files0, p) {
      assert SameAt(files, files1, p) && SameAt(files1, files0, p);
    }
  }

  lemma WrittenOut(files: Files, files': Files, staged: seq<StagedFile>, k: nat, written: nat)
    requires Apart(staged) && k < |staged| && staged[k].temporaryPath in files && written <= |staged[k].buffer|
    requires var file := staged[k];
             files' == files[file.temporaryPath := files[file.temporaryPath] + file.buffer[..written]]
    ensures var file := staged[k];
            forall closed: bool ::
              Written(files', staged[k := file.(buffer := file.buffer[written..], closed := closed)], files, staged)
  {
    var file := staged[k];
    NamesDiffer(staged, k, k);
    forall closed: bool
      ensures Written(files', staged[k := file.(buffer := file.buffer[written..], closed := closed)], files, staged)
    {
      var after := staged[k := file.(buffer := file.buffer[written..], closed := closed)];
      forall j | 0 <= j < |staged| ensures Contents(files', after[j]) == Contents(files, staged[j]) {
        NamesDiffer(staged, j, k);
        if j == k {
          assert file.buffer == file.buffer[..written] + file.buffer[written..];
        }
      }
    }
  }

  lemma NothingBackedUp()
    ensures forall p :: !BackedUp([], p)
  {
  }

  lemma NothingElse(files: Files, staged: seq<StagedFile>)
    ensures OthersKept(files, files, staged)
  {
    hide IsFinal;
  }

  /** An output without an original needs no backup. */
  lemma AbsentBefore(
    files: Files, before: Files, staged: seq<StagedFile>, data: seq<Bytes>, backups: seq<Backup>, installed: set<Path>,
    missed: set<Path>, n: nat)
    requires |data| == |staged| && n < |staged| && InProgress(files, before, staged, data, backups, installed, missed)
    requires staged[n].finalPath !in files && !BackedUp(backups, staged[n].finalPath)
    ensures staged[n].finalPath !in before
  {
    hide IsFinal, BackedUp;
    assert Placed(files, before, staged[n], data[n], backups, installed, missed);
  }

  lemma UnusedName(staged: seq<StagedFile>, backups: seq<Backup>, p: Path)
    requires p.Temporary?
    requires forall k | 0 <= k < |staged| :: staged[k].temporaryPath != p
    requires forall i | 0 <= i < |backups| :: backups[i].backupPath != p
    ensures Unused(staged, backups, p)
  {
  }

  lemma OutputsKept(files: Files, before: Files, staged: seq<StagedFile>)
    requires forall p: Path | p.Output? :: SameAt(files, before, p)
    ensures OthersKept(files, before, staged)
  {
    hide IsFinal;
  }

  lemma OthersTransitive(files: Files, mid: Files, before: Files, staged: seq<StagedFile>)
    requires OthersKept(files, mid, staged) && OthersKept(mid, before, staged)
    ensures OthersKept(files, before, staged)
  {
    hide IsFinal;
    forall p: Path | p.Output? && !IsFinal(staged, p) ensures SameAt(files, before, p) {
      assert SameAt(files, mid, p) && SameAt(mid, before, p);
    }
  }

  /** A backup name that was not used after all. */
  lemma Discarded(
    files: Files, files': Files, before: Files, staged: seq<StagedFile>, data: seq<Bytes>, backups: seq<Backup>,
    installed: set<Path>, missed: set<Path>, p: Path)
    requires |data| == |staged| && Apart(staged) && BackedApart(staged, backups) && Unused(staged, backups, p)
    requires InProgress(files, before, staged, data, backups, installed, missed)
    requires files' == files || files' == Without(files, p)
    ensures InProgress(files', before, staged, data, backups, installed, missed) && OthersKept(files', files, staged)
  {
    hide InProgress, Apart, BackedApart, IsFinal;
    AgreeingProgress(files, files', before, staged, data, backups, installed, missed, p);
  }

  lemma BackedUpOne(backups: seq<Backup>, last: Backup)
    ensures forall p :: BackedUp(backups + [last], p) <==> BackedUp(backups, p) || p == last.finalPath
  {
    hide BackedUp;
    forall p ensures BackedUp(backups + [last], p) <==> BackedUp(backups, p) || p == last.finalPath {
      BackedUpAppend(backups, last, p);
    }
  }

  /** Moving between a final path and a temporary name, either way, touches no other output. */
  lemma OthersMoved(files: Files, staged: seq<StagedFile>, n: nat, temporary: Path)
    requires n < |staged| && temporary.Temporary?
    ensures var final := staged[n].finalPath;
            && (final in files ==> OthersKept(Renamed(files, final, temporary), files, staged))
            && (temporary in files ==> OthersKept(Renamed(files, temporary, final), files, staged))
  {
    OwnFinal(staged, n);
  }

  lemma OtherFinals(staged: seq<StagedFile>, n: nat)
    requires Apart(staged) && n < |staged|
    ensures forall k | 0 <= k < |staged| && k != n :: staged[k].finalPath != staged[n].finalPath
  {
    forall k | 0 <= k < |staged| && k != n ensures staged[k].finalPath != staged[n].finalPath {
      NamesDiffer(staged, k, n);
    }
  }

  // ---------------------------------------------------------------------------------------------
  // Rolling back
  // ---------------------------------------------------------------------------------------------

  ghost predicate AllKept(files: Files, before: Files, backups: seq<Backup>) {
    forall i | 0 <= i < |backups| :: BackupKept(files, before, backups[i])
  }

  /**
   * Outputs neither backed up nor installed are as they were, and those installed without a backup had no original, or
   * one that went unnoticed.
   */
  ghost predicate Untouched(
    files: Files, before: Files, staged: seq<StagedFile>, backups: seq<Backup>, installed: set<Path>, missed: set<Path>)
  {
    forall p | IsFinal(staged, p) && !BackedUp(backups, p) ::
      if p in installed then p !in before || p in missed else SameAt(files, before, p)
  }

  /** The original is back. */
  ghost predicate Restored(files: Files, before: Files, b: Backup) {
    b.finalPath in before && FileHolds(files, b.finalPath, before[b.finalPath])
  }

  ghost predicate KeptOrRestored(files: Files, before: Files, b: Backup) {
    BackupKept(files, before, b) || Restored(files, before, b)
  }

  lemma FinalIsOutput(staged: seq<StagedFile>, p: Path)
    requires Apart(staged) && IsFinal(staged, p)
    ensures p.Output?
  {
  }

  lemma RemovedInstalled(
    files: Files, files': Files, before: Files, staged: seq<StagedFile>, backups: seq<Backup>, installed: set<Path>,
    missed: set<Path>, p: Path)
    requires BackedApart(staged, backups) && p.Output? && IsFinal(staged, p) && p in installed && !BackedUp(backups, p)
    requires AllKept(files, before, backups) && Untouched(files, before, staged, backups, installed, missed)
    requires OthersKept(files, before, staged)
    requires files' == files || files' == Without(files, p)
    ensures AllKept(files', before, backups) && Untouched(files', before, staged, backups, installed, missed)
    ensures OthersKept(files', before, staged)
  {
    hide IsFinal, BackedUp;
    forall i | 0 <= i < |backups| ensures BackupKept(files', before, backups[i]) {
      assert BackupKept(files, before, backups[i]);
    }
    forall q: Path | q.Output? && !IsFinal(staged, q) ensures SameAt(files', before, q) {
      assert SameAt(files, before, q);
    }
  }

  lemma BackupOf(backups: seq<Backup>, n: nat)
    requires n < |backups|
    ensures BackedUp(backups, backups[n].finalPath)
  {
  }

  /** Putting one original back, or failing to. */
  lemma RestoreOne(
    files: Files, before: Files, staged: seq<StagedFile>, backups: seq<Backup>, installed: set<Path>,
    missed: set<Path>, n: nat)
    requires Apart(staged) && BackedApart(staged, backups) && n < |backups| && IsFinal(staged, backups[n].finalPath)
    requires forall i | 0 <= i <= n :: BackupKept(files, before, backups[i])
    requires forall i | n < i < |backups| :: KeptOrRestored(files, before, backups[i])
    requires Untouched(files, before, staged, backups, installed, missed) && OthersKept(files, before, staged)
    ensures backups[n].backupPath in files && backups[n].finalPath.Output? && backups[n].backupPath.Temporary?
    ensures KeptOrRestored(files, before, backups[n]) && BackedUp(backups, backups[n].finalPath)
    ensures var files' := Renamed(files, backups[n].backupPath, backups[n].finalPath);
            && Restored(files', before, backups[n])
            && Untouched(files', before, staged, backups, installed, missed) && OthersKept(files', before, staged)
            && (forall i | 0 <= i < n :: BackupKept(files', before, backups[i]))
            && (forall i | n < i < |backups| :: KeptOrRestored(files', before, backups[i]))
            && (forall i | n < i < |backups| && Restored(files, before, backups[i]) ::
                  Restored(files', before, backups[i]))
            && (forall i | n <= i < |backups| && (i > n ==> backups[i].backupPath !in files) ::
                  backups[i].backupPath !in files')
  {
    hide IsFinal, BackedUp;
    assert BackupKept(files, before, backups[n]);
    BackupOf(backups, n);
    var source, target := backups[n].backupPath, backups[n].finalPath;
    var files' := Renamed(files, source, target);
    forall i | 0 <= i < |backups| && i != n
      ensures BackupKept(files, before, backups[i]) ==> BackupKept(files', before, backups[i])
      ensures Restored(files, before, backups[i]) ==> Restored(files', before, backups[i])
      ensures KeptOrRestored(files, before, backups[i]) ==> KeptOrRestored(files', before, backups[i])
    {
      BackupsDiffer(staged, backups, i, n);
    }
    forall q: Path | q.Output? && !IsFinal(staged, q) ensures SameAt(files', before, q) {
      assert SameAt(files, before, q);
    }
    forall p | IsFinal(staged, p) && !BackedUp(backups, p)
      ensures if p in installed then p !in before || p in missed else SameAt(files', before, p)
    {
      FinalIsOutput(staged, p);
    }
  }

  lemma BackupsDiffer(staged: seq<StagedFile>, backups: seq<Backup>, i: nat, n: nat)
    requires BackedApart(staged, backups) && i < |backups| && n < |backups|
    ensures i != n ==> backups[i].finalPath != backups[n].finalPath && backups[i].backupPath != backups[n].backupPath
    ensures backups[i].finalPath.Output? && backups[i].backupPath.Temporary?
  {
  }

  lemma RollbackStart(
    files: Files, before: Files, staged: seq<StagedFile>, data: seq<Bytes>, backups: seq<Backup>, installed: set<Path>,
    missed: set<Path>)
    requires |data| == |staged| && InProgress(files, before, staged, data, backups, installed, missed)
    ensures AllKept(files, before, backups) && Untouched(files, before, staged, backups, installed, missed)
    ensures forall i | 0 <= i < |backups| :: IsFinal(staged, backups[i].finalPath)
    ensures forall p | p in installed :: IsFinal(staged, p) && Guarded(before, backups, missed, p)
    ensures forall p | p in missed :: IsFinal(staged, p) && p in before && !BackedUp(backups, p)
  {
    hide BackedUp;
    forall p | IsFinal(staged, p) && !BackedUp(backups, p)
      ensures if p in installed then p !in before || p in missed else SameAt(files, before, p)
    {
      var k :| 0 <= k < |staged| && staged[k].finalPath == p;
      assert Placed(files, before, staged[k], data[k], backups, installed, missed);
    }
    forall p | p in installed ensures Guarded(before, backups, missed, p) {
      var k :| 0 <= k < |staged| && staged[k].finalPath == p;
      assert Placed(files, before, staged[k], data[k], backups, installed, missed);
    }
  }

  lemma MissedFinals(
    files: Files, before: Files, staged: seq<StagedFile>, data: seq<Bytes>, backups: seq<Backup>,
    installed: set<Path>, missed: set<Path>, finalPaths: set<Path>)
    requires |data| == |staged| && InProgress(files, before, staged, data, backups, installed, missed)
    requires forall p :: p in finalPaths <==> IsFinal(staged, p)
    ensures forall p | p in missed :: p in finalPaths && p in before
  {
    hide IsFinal, BackedUp;
  }

  /**
   * The loss on an input. Outputs x and y both exist and are both staged. Asking whether x exists fails, y is backed
   * up, x is installed, and installing y fails: the rollback, without an error of its own, puts y back and removes x,
   * and the original of x is in no file.
   */
  lemma MissedOutputLost(original: Bytes, other: Bytes, x: Path, y: Path, a: Bytes, b: Bytes)
    requires x.Output? && y.Output? && x != y && original != other && original != a && original != b
    ensures var before: Files := map[x := original, y := other, Temporary(0) := a, Temporary(1) := b];
            var staged := [StagedFile(x, Temporary(0), [], true), StagedFile(y, Temporary(1), [], true)];
            var backedUp := Renamed(before[Temporary(2) := []], y, Temporary(2));
            var installed := Renamed(backedUp, Temporary(0), x);
            var removed := Without(installed, x);
            var files := Renamed(removed, Temporary(2), y);
            && InProgress(installed, before, staged, [a, b], [Backup(y, Temporary(2))], {x}, {x})
            && SameAt(files, before, y)
            && x !in files && forall p | p in files :: files[p] != original
  {
    var backups := [Backup(y, Temporary(2))];
    assert backups[0].finalPath == y;
    var staged := [StagedFile(x, Temporary(0), [], true), StagedFile(y, Temporary(1), [], true)];
    assert staged[0].finalPath == x && staged[1].finalPath == y;
  }

  /** What one final path holds after both loops of the rollback. */
  lemma RolledBackAt(
    mid: Files, files: Files, before: Files, staged: seq<StagedFile>, backups: seq<Backup>, installed: set<Path>,
    missed: set<Path>, p: Path)
    requires IsFinal(staged, p) && p.Output? && Untouched(files, before, staged, backups, installed, missed)
    requires forall i | 0 <= i < |backups| :: KeptOrRestored(files, before, backups[i])
    requires forall q: Path | q.Output? && q !in mid && !BackedUp(backups, q) :: q !in files
    requires p in missed ==> p in before && !BackedUp(backups, p)
    ensures (p in missed && p in installed) || Survives(files, before, backups, p)
    ensures (p in installed && !BackedUp(backups, p) ==> p !in mid)
            && (forall i | 0 <= i < |backups| :: Restored(files, before, backups[i]))
            ==> if p in missed && p in installed then p in before && p !in files else SameAt(files, before, p)
  {
    hide IsFinal;
    if BackedUp(backups, p) {
      var i :| 0 <= i < |backups| && backups[i].finalPath == p;
      assert KeptOrRestored(files, before, backups[i]);
      if forall i | 0 <= i < |backups| :: Restored(files, before, backups[i]) {
        assert Restored(files, before, backups[i]);
      }
    }
  }

  // ---------------------------------------------------------------------------------------------
  // Committing and leaving
  // ---------------------------------------------------------------------------------------------

  ghost function AllContents(files: Files, staged: seq<StagedFile>): (data: seq<Bytes>)
    ensures |data| == |staged|
  {
    seq(|staged|, k requires 0 <= k < |staged| => Contents(files, staged[k]))
  }

  lemma FinalPaths(staged: seq<StagedFile>, finalPaths: set<Path>)
    requires Apart(staged) && forall p :: p in finalPaths <==> IsFinal(staged, p)
    ensures forall p | p in finalPaths :: p.Output?
  {
    hide IsFinal, Apart;
    forall p | p in finalPaths ensures p.Output? {
      FinalIsOutput(staged, p);
    }
  }

  lemma WrittenSame(files: Files, staged: seq<StagedFile>, before: Files, staged0: seq<StagedFile>)
    requires Written(files, staged, before, staged0)
    ensures forall p: Path | p.Output? :: SameAt(files, before, p)
  {
  }

  lemma WrittenWhole(files: Files, staged: seq<StagedFile>, before: Files, staged0: seq<StagedFile>)
    requires Written(files, staged, before, staged0)
    requires forall k | 0 <= k < |staged| :: staged[k].buffer == [] && staged[k].temporaryPath in files
    ensures var data := AllContents(before, staged0);
            |data| == |staged| && forall k | 0 <= k < |staged| :: FileHolds(files, staged[k].temporaryPath, data[k])
  {
    forall k | 0 <= k < |staged|
      ensures FileHolds(files, staged[k].temporaryPath, Contents(before, staged0[k]))
    {
      assert Contents(files, staged[k]) == Contents(before, staged0[k]);
      assert files[staged[k].temporaryPath] + [] == files[staged[k].temporaryPath];
    }
  }

  lemma ProgressStart(files: Files, before: Files, staged: seq<StagedFile>, data: seq<Bytes>)
    requires |data| == |staged| && Apart(staged)
    requires forall p: Path | p.Output? :: SameAt(files, before, p)
    requires forall k | 0 <= k < |staged| :: FileHolds(files, staged[k].temporaryPath, data[k])
    ensures InProgress(files, before, staged, data, [], {}, {})
  {
    hide IsFinal;
    forall k | 0 <= k < |staged| ensures Placed(files, before, staged[k], data[k], [], {}, {}) {
      NamesDiffer(staged, k, k);
    }
  }

  lemma InstalledHolds(
    files: Files, before: Files, staged: seq<StagedFile>, data: seq<Bytes>, backups: seq<Backup>, installed: set<Path>,
    missed: set<Path>)
    requires |data| == |staged| && InProgress(files, before, staged, data, backups, installed, missed)
    requires forall k | 0 <= k < |staged| :: staged[k].finalPath in installed
    ensures forall k | 0 <= k < |staged| :: FileHolds(files, staged[k].finalPath, data[k])
  {
    hide IsFinal, BackedUp;
    forall k | 0 <= k < |staged| ensures FileHolds(files, staged[k].finalPath, data[k]) {
      assert Placed(files, before, staged[k], data[k], backups, installed, missed);
    }
  }

  lemma OthersAre(files: Files, before: Files, staged: seq<StagedFile>, finalPaths: set<Path>)
    requires OthersKept(files, before, staged) && forall p :: p in finalPaths <==> IsFinal(staged, p)
    ensures forall p: Path | p.Output? && p !in finalPaths :: SameAt(files, before, p)
  {
    hide IsFinal;
  }

  lemma FinalsStay(files: Files, files': Files, staged: seq<StagedFile>, data: seq<Bytes>)
    requires |data| == |staged| && Apart(staged)
    requires forall p: Path | p.Output? :: SameAt(files', files, p)
    ensures (forall k | 0 <= k < |staged| :: FileHolds(files, staged[k].finalPath, data[k]))
            ==> forall k | 0 <= k < |staged| :: FileHolds(files', staged[k].finalPath, data[k])
  {
    forall k | 0 <= k < |staged| ensures SameAt(files', files, staged[k].finalPath) {
      NamesDiffer(staged, k, k);
    }
  }

  ghost predicate NotStaged(staged: seq<StagedFile>, p: Path) {
    forall k | 0 <= k < |staged| :: staged[k].temporaryPath != p
  }

  lemma DiscardedOne(
    files: Files, mid: Files, files0: Files, staged: seq<StagedFile>, earlier: seq<StagedFile>, k: nat)
    requires PathsAgree(staged, earlier) && Apart(earlier) && k < |staged|
    requires forall p | NotStaged(earlier, p) :: SameAt(mid, files0, p)
    requires forall p | p != earlier[k].temporaryPath :: SameAt(files, mid, p)
    ensures forall p | NotStaged(staged, p) :: SameAt(files, files0, p)
    ensures forall j | 0 <= j < k && earlier[j].temporaryPath !in mid :: staged[j].temporaryPath !in files
  {
    forall p | NotStaged(staged, p) ensures SameAt(files, files0, p) {
      forall j | 0 <= j < |earlier| ensures earlier[j].temporaryPath != p {
        assert staged[j].temporaryPath != p;
      }
      assert NotStaged(earlier, p);
      assert SameAt(mid, files0, p) && SameAt(files, mid, p);
    }
    forall j | 0 <= j < k && earlier[j].temporaryPath !in mid ensures staged[j].temporaryPath !in files {
      NamesDiffer(earlier, j, k);
      assert SameAt(files, mid, earlier[j].temporaryPath);
    }
  }

  lemma OutputsNotStaged(staged: seq<StagedFile>, backups: seq<Backup>)
    requires Apart(staged) && BackedApart(staged, backups)
    ensures forall p: Path | p.Output? :: NotStaged(staged, p)
    ensures forall i | 0 <= i < |backups| :: NotStaged(staged, backups[i].backupPath)
  {
  }

  lemma SurvivorsStay(files: Files, files': Files, staged: seq<StagedFile>, backups: seq<Backup>)
    requires forall p: Path | p.Output? :: NotStaged(staged, p)
    requires forall i | 0 <= i < |backups| :: NotStaged(staged, backups[i].backupPath)
    requires forall p | NotStaged(staged, p) :: SameAt(files', files, p)
    ensures forall before: Files, p: Path | p.Output? && Survives(files, before, backups, p) ::
              Survives(files', before, backups, p)
  {
    hide NotStaged;
    forall before: Files, p: Path | p.Output? && Survives(files, before, backups, p)
      ensures Survives(files', before, backups, p)
    {
      assert SameAt(files', files, p);
      if p in before && !FileHolds(files, p, before[p]) {
        var i :| 0 <= i < |backups| && backups[i].finalPath == p && FileHolds(files, backups[i].backupPath, before[p]);
        assert SameAt(files', files, backups[i].backupPath);
      }
    }
  }
}
