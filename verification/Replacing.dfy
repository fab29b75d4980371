/** One run of the command: its outputs are staged, written, committed and the transaction left. */
module Replacing {
  import opened Models
  import opened FileSystems
  import opened Transaction

  /** An output path, whether its directory is there, and the bytes meant for it. */
  datatype Job = Job(path: Path, parentExists: bool, data: Bytes)

  /** What became of the outputs, whether or not an error is raised about the files left over. */
  datatype Ending =
    | Replaced
    | Undone
    | Damaged

  /** Every job can be staged: its directory is there and no job before it has its path. */
  ghost predicate Openable(jobs: seq<Job>) {
    && (forall k | 0 <= k < |jobs| :: jobs[k].parentExists)
    && (forall j, k | 0 <= j < k < |jobs| :: jobs[j].path != jobs[k].path)
  }

  ghost predicate StagedFor(files: Files, staged: seq<StagedFile>, jobs: seq<Job>) {
    && |staged| == |jobs|
    && forall k | 0 <= k < |staged| ::
         staged[k].finalPath == jobs[k].path && Contents(files, staged[k]) == jobs[k].data
  }

  ghost predicate IsTarget(jobs: seq<Job>, p: Path) {
    exists k :: 0 <= k < |jobs| && jobs[k].path == p
  }

  /** The bytes of an original are still in some file. */
  ghost predicate Somewhere(files: Files, data: Bytes) {
    exists q :: FileHolds(files, q, data)
  }

  lemma TargetsStaged(files: Files, staged: seq<StagedFile>, jobs: seq<Job>)
    requires StagedFor(files, staged, jobs)
    ensures forall p :: IsFinal(staged, p) <==> IsTarget(jobs, p)
  {
    hide Contents;
    forall p ensures IsFinal(staged, p) <==> IsTarget(jobs, p) {
      if IsFinal(staged, p) {
        var k :| 0 <= k < |staged| && staged[k].finalPath == p;
        assert jobs[k].path == p;
      }
      if IsTarget(jobs, p) {
        var k :| 0 <= k < |jobs| && jobs[k].path == p;
        assert staged[k].finalPath == p;
      }
    }
  }

  lemma OpenableOne(jobs: seq<Job>, n: nat)
    requires n < |jobs|
    ensures Openable(jobs[..n + 1])
            <==> Openable(jobs[..n]) && jobs[n].parentExists && !IsTarget(jobs[..n], jobs[n].path)
  {
    var front, more := jobs[..n], jobs[..n + 1];
    assert more == front + [jobs[n]];
    if Openable(more) {
      forall k | 0 <= k < n ensures front[k].path != jobs[n].path && front[k].parentExists {
        assert more[k] == front[k] && more[n] == jobs[n];
      }
      forall j, k | 0 <= j < k < n ensures front[j].path != front[k].path {
        assert more[j] == front[j] && more[k] == front[k];
      }
    }
  }

  lemma OpenablePart(jobs: seq<Job>, n: nat)
    requires n <= |jobs| && Openable(jobs)
    ensures Openable(jobs[..n])
  {
  }

  lemma StagedOne(
    files: Files, staged: seq<StagedFile>, files': Files, staged': seq<StagedFile>, jobs: seq<Job>, n: nat)
    requires n < |jobs| && StagedFor(files, staged, jobs[..n]) && |staged'| == n + 1
    requires forall k | 0 <= k < n ::
               staged'[k].finalPath == staged[k].finalPath && Contents(files', staged'[k]) == Contents(files, staged[k])
    requires staged'[n].finalPath == jobs[n].path && Contents(files', staged'[n]) == jobs[n].data
    ensures StagedFor(files', staged', jobs[..n + 1])
  {
    hide Contents;
    forall k | 0 <= k < n + 1
      ensures staged'[k].finalPath == jobs[..n + 1][k].path && Contents(files', staged'[k]) == jobs[..n + 1][k].data
    {
      if k < n {
        assert jobs[..n][k] == jobs[..n + 1][k];
      }
    }
  }

  /** The jobs are opened and written in order, up to the first that cannot be opened. */
  method Stage(transaction: OutputTransaction, jobs: seq<Job>) returns (n: nat)
    requires transaction.Valid() && transaction.Fresh() && transaction.staged == []
    requires forall k | 0 <= k < |jobs| :: jobs[k].path.Output?
    modifies transaction, transaction.fs
    ensures transaction.Valid() && transaction.Fresh() && n <= |jobs|
    ensures StagedFor(transaction.fs.files, transaction.staged, jobs[..n])
    ensures forall p: Path | p.Output? :: SameAt(transaction.fs.files, old(transaction.fs.files), p)
    ensures transaction.fs.failures >= old(transaction.fs.failures)
    ensures n == |jobs| <==> Openable(jobs) && transaction.fs.failures == old(transaction.fs.failures)
    ensures transaction.fs.failures == old(transaction.fs.failures) ==> transaction.leaked == old(transaction.leaked)
  {
    hide IsFinal, IsTarget, Contents, StagedFor, Openable, SameAt, OutputTransaction.Valid, OutputTransaction.Fresh;
    var fs := transaction.fs;
    NothingStaged(fs.files, jobs);
    n := 0;
    while n < |jobs|
      invariant n <= |jobs| && transaction.Valid() && transaction.Fresh()
      invariant StagedFor(fs.files, transaction.staged, jobs[..n]) && Openable(jobs[..n])
      invariant forall p: Path | p.Output? :: SameAt(fs.files, old(fs.files), p)
      invariant fs.failures == old(fs.failures) && transaction.leaked == old(transaction.leaked)
    {
      ghost var files, staged := fs.files, transaction.staged;
      TargetsStaged(files, staged, jobs[..n]);
      OpenableOne(jobs, n);
      var ok := transaction.Open(jobs[n].path, jobs[n].parentExists);
      OutputsTransitive(fs.files, files, old(fs.files));
      if !ok {
        if Openable(jobs) {
          OpenablePart(jobs, n + 1);
        }
        StillStaged(files, fs.files, staged, jobs[..n]);
        return;
      }
      StagedLength(files, staged, jobs[..n]);
      transaction.Write(n, jobs[n].data);
      StagedOne(files, staged, fs.files, transaction.staged, jobs, n);
      n := n + 1;
    }
    assert jobs[..n] == jobs;
  }

  lemma NothingStaged(files: Files, jobs: seq<Job>)
    ensures StagedFor(files, [], jobs[..0]) && Openable(jobs[..0])
    ensures forall p :: SameAt(files, files, p)
  {
  }

  lemma StagedLength(files: Files, staged: seq<StagedFile>, jobs: seq<Job>)
    requires StagedFor(files, staged, jobs)
    ensures |staged| == |jobs|
  {
  }

  lemma StillStaged(files: Files, files': Files, staged: seq<StagedFile>, jobs: seq<Job>)
    requires StagedFor(files, staged, jobs)
    requires forall k | 0 <= k < |staged| :: Contents(files', staged[k]) == Contents(files, staged[k])
    ensures StagedFor(files', staged, jobs)
  {
    hide Contents;
  }

  lemma OutputsTransitive(files: Files, mid: Files, before: Files)
    requires forall p: Path | p.Output? :: SameAt(files, mid, p)
    requires forall p: Path | p.Output? :: SameAt(mid, before, p)
    ensures forall p: Path | p.Output? :: SameAt(files, before, p)
  {
    forall p: Path | p.Output? ensures SameAt(files, before, p) {
      assert SameAt(files, mid, p) && SameAt(mid, before, p);
    }
  }

  /** No name is on record as backed up. */
  lemma NoBackups()
    ensures forall p :: !IsBackup([], p)
  {
  }

  lemma HeldAt(files: Files, staged: seq<StagedFile>, files': Files, jobs: seq<Job>)
    requires StagedFor(files, staged, jobs)
    requires forall k | 0 <= k < |staged| :: FileHolds(files', staged[k].finalPath, Contents(files, staged[k]))
    ensures forall k | 0 <= k < |jobs| :: FileHolds(files', jobs[k].path, jobs[k].data)
  {
    hide Contents, FileHolds;
    forall k | 0 <= k < |jobs| ensures FileHolds(files', jobs[k].path, jobs[k].data) {
      assert FileHolds(files', staged[k].finalPath, Contents(files, staged[k]));
    }
  }

  lemma StillHeld(files: Files, files': Files, jobs: seq<Job>)
    requires forall k | 0 <= k < |jobs| :: jobs[k].path.Output?
    requires forall p: Path | p.Output? :: SameAt(files', files, p)
    requires forall k | 0 <= k < |jobs| :: FileHolds(files, jobs[k].path, jobs[k].data)
    ensures forall k | 0 <= k < |jobs| :: FileHolds(files', jobs[k].path, jobs[k].data)
  {
    forall k | 0 <= k < |jobs| ensures FileHolds(files', jobs[k].path, jobs[k].data) {
      assert SameAt(files', files, jobs[k].path);
    }
  }

  lemma OriginalSomewhere(files: Files, mid: Files, before: Files, backups: seq<Backup>, p: Path)
    requires SameAt(mid, before, p) && p in before
    requires Survives(files, mid, backups, p) || SameAt(files, before, p)
    ensures Somewhere(files, before[p])
  {
    if SameAt(files, before, p) {
      assert FileHolds(files, p, before[p]);
    }
  }

  lemma SameAgain(files: Files, mid: Files, before: Files)
    requires forall p: Path | p.Output? :: SameAt(mid, before, p)
    ensures forall p: Path | p.Output? && SameAt(files, mid, p) :: SameAt(files, before, p)
  {
    forall p: Path | p.Output? && SameAt(files, mid, p) ensures SameAt(files, before, p) {
      assert SameAt(mid, before, p);
    }
  }

  lemma SameSince(files: Files, mid: Files, before: Files)
    requires forall p: Path | p.Output? :: SameAt(files, mid, p)
    ensures forall p: Path | p.Output? && SameAt(mid, before, p) :: SameAt(files, before, p)
  {
    forall p: Path | p.Output? && SameAt(mid, before, p) ensures SameAt(files, before, p) {
      assert SameAt(files, mid, p);
    }
  }

  lemma SamePathsHeld(files: Files, staged: seq<StagedFile>, files0: Files, staged0: seq<StagedFile>)
    requires PathsAgree(staged, staged0)
    requires forall k | 0 <= k < |staged| :: FileHolds(files, staged[k].finalPath, Contents(files0, staged0[k]))
    ensures forall k | 0 <= k < |staged0| :: FileHolds(files, staged0[k].finalPath, Contents(files0, staged0[k]))
  {
    hide Contents, FileHolds;
    forall k | 0 <= k < |staged0| ensures FileHolds(files, staged0[k].finalPath, Contents(files0, staged0[k])) {
      assert staged[k].finalPath == staged0[k].finalPath;
    }
  }

  /** What is left of the originals at the output paths, but for those that are lost. */
  ghost predicate OutputsAre(files: Files, before: Files, ending: Ending, lost: set<Path>) {
    match ending
    case Replaced => lost == {}
    case Undone =>
      forall p: Path | p.Output? :: if p in lost then p in before && p !in files else SameAt(files, before, p)
    case Damaged => forall p: Path | p.Output? && p in before && p !in lost :: Somewhere(files, before[p])
  }

  lemma UndoneOutcome(files: Files, mid: Files, before: Files, lost: set<Path>)
    requires forall p: Path | p.Output? :: SameAt(files, mid, p)
    requires forall p: Path | p.Output? ::
               if p in lost then p in before && p !in mid else SameAt(mid, before, p)
    ensures OutputsAre(files, before, Undone, lost)
  {
    forall p: Path | p.Output? ensures if p in lost then p in before && p !in files else SameAt(files, before, p) {
      assert SameAt(files, mid, p);
    }
  }

  /** commit, and then __exit__. */
  method CommitAndLeave(transaction: OutputTransaction, jobs: seq<Job>, ghost before: Files)
    returns (ending: Ending, ghost missed: set<Path>, ghost lost: set<Path>)
    requires transaction.Valid() && transaction.Fresh() && forall k | 0 <= k < |jobs| :: jobs[k].path.Output?
    requires StagedFor(transaction.fs.files, transaction.staged, jobs)
    requires forall p: Path | p.Output? :: SameAt(transaction.fs.files, before, p)
    modifies transaction, transaction.fs
    ensures transaction.Valid() && transaction.fs.failures >= old(transaction.fs.failures) + |missed|
    ensures forall p: Path | p.Output? && !IsTarget(jobs, p) :: SameAt(transaction.fs.files, before, p)
    ensures lost <= missed && forall p | p in missed :: IsTarget(jobs, p) && p in before
    ensures OutputsAre(transaction.fs.files, before, ending, lost)
    ensures ending.Replaced? ==>
              forall k | 0 <= k < |jobs| :: FileHolds(transaction.fs.files, jobs[k].path, jobs[k].data)
    ensures ending.Undone? ==> transaction.fs.failures >= old(transaction.fs.failures) + |missed| + 1
    ensures ending.Damaged? ==> transaction.fs.failures >= old(transaction.fs.failures) + |missed| + 2
    ensures transaction.fs.failures == old(transaction.fs.failures) ==>
              && ending.Replaced?
              && forall p: Path | p.Temporary? ::
                   p in transaction.fs.files <==> p in transaction.foreign || p in old(transaction.leaked)
  {
    hide IsFinal, IsTarget, Contents, StagedFor, FileHolds, SameAt, OutputTransaction.Fresh, OutputsAre;
    hide Survives, Somewhere, IsBackup, NoneBacked, Apart, BackedApart, Accounted, NoneStaged, PathsAgree;
    var fs := transaction.fs;
    ghost var files, staged := fs.files, transaction.staged;
    TargetsStaged(files, staged, jobs);
    SamePresence(files, before);
    var exit := transaction.Commit();
    ghost var mid := fs.files;
    missed := transaction.missed;
    MissedTargets(jobs, staged, transaction.finalPaths, missed, files, before);
    lost := if transaction.committed then {} else missed * transaction.installed;
    SameAgain(mid, files, before);
    if transaction.committed {
      SamePathsHeld(mid, transaction.staged, files, staged);
      HeldAt(files, staged, mid, jobs);
    }
    var _ := transaction.Leave();
    SameSince(fs.files, mid, before);
    if transaction.committed {
      StillHeld(mid, fs.files, jobs);
      NothingLost(fs.files, before);
      return Replaced, missed, lost;
    }
    if exit.RollbackFailed? {
      forall p: Path | p.Output? && p in before && p !in lost ensures Somewhere(fs.files, before[p]) {
        OriginalSomewhere(fs.files, files, before, transaction.backups, p);
      }
      DamagedOutcome(fs.files, before, lost);
      return Damaged, missed, lost;
    }
    UndoneOutcome(fs.files, mid, before, lost);
    return Undone, missed, lost;
  }

  lemma SamePresence(files: Files, before: Files)
    requires forall p: Path | p.Output? :: SameAt(files, before, p)
    ensures forall p: Path | p.Output? :: p in files <==> p in before
  {
    forall p: Path | p.Output? ensures p in files <==> p in before {
      assert SameAt(files, before, p);
    }
  }

  lemma MissedTargets(
    jobs: seq<Job>, staged: seq<StagedFile>, finalPaths: set<Path>, missed: set<Path>, files: Files, before: Files)
    requires forall p :: p in finalPaths <==> IsFinal(staged, p)
    requires forall p :: IsFinal(staged, p) <==> IsTarget(jobs, p)
    requires forall p | p in missed :: p in finalPaths && p in files
    requires forall p: Path | p.Output? :: p in files <==> p in before
    requires Apart(staged)
    ensures forall p | p in missed :: IsTarget(jobs, p) && p in before
  {
    hide IsTarget;
    forall p | p in missed ensures IsTarget(jobs, p) && p in before {
      FinalIsOutput(staged, p);
    }
  }

  lemma NothingLost(files: Files, before: Files)
    ensures OutputsAre(files, before, Replaced, {})
  {
  }

  lemma DamagedOutcome(files: Files, before: Files, lost: set<Path>)
    requires forall p: Path | p.Output? && p in before && p !in lost :: Somewhere(files, before[p])
    ensures OutputsAre(files, before, Damaged, lost)
  {
  }

  /**
   * The with block of the command. Whatever fails and wherever the extraction stops, either every output holds what
   * was written to it, or every output path is as before, or, after a second failure while rolling back, every
   * original is still in some file; other output paths never change. The exception is an original that commit took to
   * be absent, because asking whether it exists failed, and installed an output over before it gave up: it is lost.
   * If nothing fails and every output can be opened, the outputs are replaced and the temporary names are those that
   * were there before.
   */
  method ReplaceOutputs(fs: FileSystem, jobs: seq<Job>, raises: bool)
    returns (ending: Ending, ghost missed: set<Path>, ghost lost: set<Path>)
    requires fs.Valid() && forall k | 0 <= k < |jobs| :: jobs[k].path.Output?
    modifies fs
    ensures fs.Valid() && fs.failures >= old(fs.failures) + |missed|
    ensures forall p: Path | p.Output? && !IsTarget(jobs, p) :: SameAt(fs.files, old(fs.files), p)
    ensures lost <= missed && forall p | p in missed :: IsTarget(jobs, p) && p in old(fs.files)
    ensures lost != {} ==> fs.failures >= old(fs.failures) + 2
    ensures OutputsAre(fs.files, old(fs.files), ending, lost)
    ensures ending.Replaced? ==>
              !raises && forall k | 0 <= k < |jobs| :: FileHolds(fs.files, jobs[k].path, jobs[k].data)
    ensures ending.Damaged? ==> fs.failures >= old(fs.failures) + |missed| + 2
    ensures fs.failures == old(fs.failures) ==>
              && (ending.Replaced? <==> !raises && Openable(jobs)) && !ending.Damaged?
              && forall p: Path | p.Temporary? :: p in fs.files <==> p in old(fs.files)
  {
    hide IsFinal, IsTarget, Contents, StagedFor, Openable, SameAt, Somewhere, IsBackup, Survives, PathsAgree;
    hide Apart, BackedApart, Accounted, NoneStaged, OutputsAre;
    ghost var before := fs.files;
    var transaction := new OutputTransaction(fs);
    var n := Stage(transaction, jobs);
    if n < |jobs| || raises {
      ghost var files := fs.files;
      NoBackups();
      var errors := transaction.Leave();
      UndoneOutcome(fs.files, files, before, {});
      OutputsTransitive(fs.files, files, before);
      return Undone, {}, {};
    }
    assert jobs[..n] == jobs;
    ending, missed, lost := CommitAndLeave(transaction, jobs, before);
    LostMissed(before, fs.files, ending, missed, lost);
  }

  lemma LostMissed(before: Files, files: Files, ending: Ending, missed: set<Path>, lost: set<Path>)
    requires OutputsAre(files, before, ending, lost) && lost <= missed
    ensures lost != {} ==> !ending.Replaced? && |missed| >= 1
  {
    hide Somewhere, SameAt;
    if missed == {} {
      assert lost == {};
    }
  }
}
