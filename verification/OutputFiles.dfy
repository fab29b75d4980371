/** One extraction to an output path: from the capture to the installed file (_single_extract and its with block). */
module OutputFiles {
  import opened Models
  import opened CodecTables
  import opened Rfc4867
  import opened Storage
  import opened Timeline
  import opened Wraps
  import opened StoredRuns
  import opened Filling
  import opened Discovery
  import opened Findings
  import opened Selection
  import opened Ambiguity
  import opened Extraction
  import opened Pipeline
  import opened Captures
  import opened Automatic
  import opened Discovered
  import opened FileSystems
  import opened Transaction
  import opened Replacing

  /** What an extraction may do to the files, whatever it wrote to its stream. */
  ghost predicate FilesAfter(
    files: Files, before: Files, path: Path, ending: Ending, missed: set<Path>, lost: set<Path>)
  {
    && (forall p: Path | p.Output? && p != path :: SameAt(files, before, p))
    && lost <= missed && (forall p | p in missed :: p == path && p in before)
    && OutputsAre(files, before, ending, lost)
  }

  lemma OneTarget(path: Path, parentExists: bool, data: Bytes)
    ensures forall p :: IsTarget([Job(path, parentExists, data)], p) <==> p == path
  {
    assert [Job(path, parentExists, data)][0].path == path;
  }

  lemma OneStaged(files: Files, staged: seq<StagedFile>, path: Path, parentExists: bool, data: Bytes)
    requires |staged| == 1 && staged[0].finalPath == path && Contents(files, staged[0]) == data
    ensures StagedFor(files, staged, [Job(path, parentExists, data)])
  {
    hide Contents;
  }

  lemma UndoneAfter(files: Files, mid: Files, before: Files, path: Path)
    requires forall p: Path | p.Output? :: SameAt(files, mid, p)
    requires forall p: Path | p.Output? :: SameAt(mid, before, p)
    ensures FilesAfter(files, before, path, Undone, {}, {})
  {
    hide OutputsAre, SameAt;
    OutputsTransitive(files, mid, before);
    UndoneOutcome(files, mid, before, {});
  }

  /** The rest of the with block: what was extracted is committed, or dropped when the extraction raised. */
  method CommitOrDrop(
    transaction: OutputTransaction, path: Path, parentExists: bool, data: Bytes, raises: bool, ghost before: Files)
    returns (ending: Ending, ghost missed: set<Path>, ghost lost: set<Path>)
    requires transaction.Valid() && transaction.Fresh() && path.Output? && transaction.leaked == {}
    requires |transaction.staged| == 1 && transaction.staged[0].finalPath == path
    requires Contents(transaction.fs.files, transaction.staged[0]) == []
    requires forall p: Path | p.Output? :: SameAt(transaction.fs.files, before, p)
    modifies transaction, transaction.fs
    ensures transaction.fs.Valid() && transaction.fs.failures >= old(transaction.fs.failures) + |missed|
    ensures FilesAfter(transaction.fs.files, before, path, ending, missed, lost)
    ensures lost != {} ==> transaction.fs.failures >= old(transaction.fs.failures) + 2
    ensures ending.Replaced? ==> !raises && FileHolds(transaction.fs.files, path, data)
    ensures transaction.fs.failures == old(transaction.fs.failures) ==>
              && (ending.Replaced? <==> !raises) && !ending.Damaged?
              && forall p: Path | p.Temporary? :: p in transaction.fs.files <==> p in transaction.foreign
  {
    hide IsFinal, IsTarget, Contents, StagedFor, SameAt, Somewhere, IsBackup, Survives, PathsAgree, OutputsAre;
    hide Apart, BackedApart, Accounted, NoneStaged, FilesAfter, FileHolds;
    var fs := transaction.fs;
    ghost var mid := fs.files;
    if raises {
      NoBackups();
      var _ := transaction.Leave();
      UndoneAfter(fs.files, mid, before, path);
      return Undone, {}, {};
    }
    transaction.Write(0, data);
    assert [] + data == data;
    ghost var jobs := [Job(path, parentExists, data)];
    OneStaged(fs.files, transaction.staged, path, parentExists, data);
    OneTarget(path, parentExists, data);
    ending, missed, lost := CommitAndLeave(transaction, [Job(path, parentExists, data)], before);
    JobHeld(fs.files, jobs, ending);
    LostMissed(before, fs.files, ending, missed, lost);
    IsAfter(fs.files, before, path, ending, missed, lost);
  }

  lemma JobHeld(files: Files, jobs: seq<Job>, ending: Ending)
    requires |jobs| == 1
    requires ending.Replaced? ==> forall k | 0 <= k < |jobs| :: FileHolds(files, jobs[k].path, jobs[k].data)
    ensures ending.Replaced? ==> FileHolds(files, jobs[0].path, jobs[0].data)
  {
  }

  lemma IsAfter(
    files: Files, before: Files, path: Path, ending: Ending, missed: set<Path>, lost: set<Path>)
    requires forall p: Path | p.Output? && p != path :: SameAt(files, before, p)
    requires lost <= missed && forall p | p in missed :: p == path && p in before
    requires OutputsAre(files, before, ending, lost)
    ensures FilesAfter(files, before, path, ending, missed, lost)
  {
    hide SameAt, OutputsAre;
  }

  /**
   * The command for one flow: the output is opened, the capture extracted into it, and all of it committed, or nothing
   * if the extraction raised. A replaced output holds the storage file of the selected flow's whole run.
   */
  method ExtractToFile(
    fs: FileSystem, path: Path, parentExists: bool, udps: seq<UdpRecord>, selector: FlowSelector, request: Request,
    gaps: GapPolicy, malformed: MalformedPolicy, limits: ResourceLimits, capturePackets: nat, reopenable: bool)
    returns (ending: Ending, exit: Option<AutomaticExit>, ghost missed: set<Path>, ghost lost: set<Path>)
    requires fs.Valid() && path.Output? && limits.Valid()
    modifies fs
    ensures fs.Valid() && fs.failures >= old(fs.failures) + |missed|
    ensures FilesAfter(fs.files, old(fs.files), path, ending, missed, lost)
    ensures lost != {} ==> fs.failures >= old(fs.failures) + 2
    ensures ending.Replaced? ==>
              && exit.Some? && exit.value.Ran? && exit.value.exit.Extracted?
              && var cfg := ConfigFor(exit.value.selected, gaps, limits);
                 FileHolds(fs.files, path, StorageFile(cfg, RecordsFor(udps, cfg.flow)))
    ensures fs.failures == old(fs.failures) ==>
              && (exit.Some? <==> parentExists) && !ending.Damaged?
              && (ending.Replaced? <==> exit.Some? && exit.value.Ran? && exit.value.exit.Extracted?)
              && forall p: Path | p.Temporary? :: p in fs.files <==> p in old(fs.files)
  {
    hide IsFinal, Contents, SameAt, Survives, PathsAgree, OutputsAre, Apart, BackedApart, Accounted, NoneStaged;
    hide FilesAfter, FileHolds, IsBackup, StorageFile, RecordsFor, Select, ScanOf, ErrorsOf, FaultCount, Run;
    ghost var before := fs.files;
    var transaction := new OutputTransaction(fs);
    NoFinals(path);
    SameEverywhere(fs.files);
    var ok := transaction.Open(path, parentExists);
    if !ok {
      ghost var mid := fs.files;
      NoBackups();
      var _ := transaction.Leave();
      UndoneAfter(fs.files, mid, before, path);
      return Undone, None, {}, {};
    }
    var output := new OutputStream();
    ghost var result;
    var exit';
    exit', result := ExtractAutomatically(udps, selector, request, gaps, malformed, limits, output, capturePackets,
                                          reopenable);
    if exit'.Ran? && exit'.exit.Extracted? {
      EndsWhole(exit'.exit, ConfigFor(exit'.selected, gaps, limits), udps, exit'.selected, malformed,
                CaptureCounts(capturePackets, |udps|), if IsExplicit(selector, request) then 1 else 2, output.data,
                output.refusals > 0);
    }
    var raises := !(exit'.Ran? && exit'.exit.Extracted?);
    ending, missed, lost := CommitOrDrop(transaction, path, parentExists, output.data, raises, before);
    exit := Some(exit');
  }

  lemma EndsWhole(
    exit: ExtractionExit, cfg: Config, udps: seq<UdpRecord>, selection: SelectedFlow, policy: MalformedPolicy,
    capture: CaptureCounts, passes: nat, after: Bytes, refused: bool)
    requires Ends(exit, cfg, udps, selection, policy, capture, passes, [], after, refused) && exit.Extracted?
    ensures after == StorageFile(cfg, RecordsFor(udps, cfg.flow))
  {
    hide StorageFile, RecordsFor, ErrorsOf, FaultCount, Run, Tells, CutShort, FileSoFar, StopsAt;
    var file := StorageFile(cfg, RecordsFor(udps, cfg.flow));
    assert [] + file == file;
  }

  lemma NoFinals(path: Path)
    ensures !IsFinal([], path)
  {
  }

  lemma SameEverywhere(files: Files)
    ensures forall p: Path | p.Output? :: SameAt(files, files, p)
  {
  }

  /**
   * From a capture of what a sender said to the file: with a selector that lets through the sender's flow and no other,
   * a replaced output holds exactly the storage file of the speech; and if nothing fails, the stream does not refuse
   * and no strict policy meets a malformed datagram, it is replaced.
   */
  method RestoreToFile(
    fs: FileSystem, path: Path, parentExists: bool, udps: seq<UdpRecord>, selector: FlowSelector, request: Request,
    gaps: GapPolicy, malformed: MalformedPolicy, limits: ResourceLimits, capturePackets: nat, ghost cfg: Config,
    ghost stream: seq<Sent>, ghost talk: seq<Sent>, ghost times: seq<int>, ghost bodies: seq<Body>, ghost g: int)
    returns (
      ending: Ending, ghost refused: bool, ghost stored: seq<Body>, ghost missed: set<Path>, ghost lost: set<Path>)
    requires fs.Valid() && path.Output?
    requires limits.Valid() && cfg.policy == gaps && cfg.limits == limits && |udps| <= capturePackets
    requires Spoken(udps, cfg, stream, talk, times, bodies, g) && talk != []
    requires selector.MatchesFlow(cfg.flow) && OnlyFlow(selector, ParsedRecords(udps), cfg.flow)
    requires Wanted(request, Format(cfg.codec, cfg.mode))
    requires IsExplicit(selector, request)
             || !SamplesShared(Samples(limits, OfFlow(ParsedRecords(udps), cfg.flow)), request)
    modifies fs
    ensures fs.Valid() && fs.failures >= old(fs.failures) + |missed|
    ensures FilesAfter(fs.files, old(fs.files), path, ending, missed, lost)
    ensures ending.Replaced? ==>
              && StoresAt(cfg, times, bodies, stored) && (Gapless(times, TimestampStep(cfg.codec)) ==> stored == bodies)
              && FileHolds(fs.files, path, StorageStream(cfg.codec, stored))
              && ReadStorage(cfg.codec, fs.files[path]) == Some(stored)
    ensures fs.failures == old(fs.failures) && parentExists && !refused
            && (malformed.Skip? || FaultCount(udps, [cfg.flow], cfg.flow) == 0) ==>
              ending.Replaced?
  {
    hide IsFinal, Contents, SameAt, Survives, PathsAgree, OutputsAre, Apart, BackedApart, Accounted, NoneStaged;
    hide FilesAfter, FileHolds, IsBackup, StorageStream, ReadStorage, StoresAt, Gapless, TimestampStep, SpeechWritten;
    hide FlowSelector.MatchesFlow, OnlyFlow, SamplesShared, Wanted, Samples, Spoken, OfFlow, ParsedRecords, FaultCount;
    hide IsExplicit;
    ghost var before := fs.files;
    refused, stored := false, [];
    var transaction := new OutputTransaction(fs);
    NoFinals(path);
    SameEverywhere(fs.files);
    var ok := transaction.Open(path, parentExists);
    if !ok {
      ghost var mid := fs.files;
      NoBackups();
      var _ := transaction.Leave();
      UndoneAfter(fs.files, mid, before, path);
      ending, missed, lost := Undone, {}, {};
      return;
    }
    var output := new OutputStream();
    var exit;
    exit, stored := RestoreDiscovered(udps, selector, request, gaps, malformed, limits, output, capturePackets, cfg,
                                      stream, talk, times, bodies, g);
    refused := output.refusals > 0;
    RestoredWhole(exit.exit, cfg, udps, malformed, talk, times, bodies, stored, output.data, refused);
    var raises := !(exit.Ran? && exit.exit.Extracted?);
    ending, missed, lost := CommitOrDrop(transaction, path, parentExists, output.data, raises, before);
    HeldFile(fs.files, path, StorageStream(cfg.codec, stored));
  }

  lemma HeldFile(files: Files, path: Path, data: Bytes)
    ensures FileHolds(files, path, data) ==> path in files && files[path] == data
  {
  }

  lemma RestoredWhole(
    exit: ExtractionExit, cfg: Config, udps: seq<UdpRecord>, policy: MalformedPolicy, talk: seq<Sent>,
    times: seq<int>, bodies: seq<Body>, stored: seq<Body>, after: Bytes, refused: bool)
    requires SpeechWritten(exit, cfg, udps, policy, talk, times, bodies, stored, [], after, refused) && talk != []
    ensures StoresAt(cfg, times, bodies, stored) && (Gapless(times, TimestampStep(cfg.codec)) ==> stored == bodies)
    ensures exit.Extracted? ==> after == StorageStream(cfg.codec, stored)
    ensures ReadStorage(cfg.codec, StorageStream(cfg.codec, stored)) == Some(stored)
    ensures !refused && (policy.Skip? || FaultCount(udps, [cfg.flow], cfg.flow) == 0) ==> exit.Extracted?
  {
    hide StoresAt, Gapless, TimestampStep, StorageStream, FaultCount, ReadStorage;
    var file := StorageStream(cfg.codec, stored);
    assert [] + file == file;
  }
}
