/**
 * `organize_files` and `get_total_files` (main.rs, and the same code in
 * organizer/mod.rs): walk the input tree, skip entries that are not media
 * files, resolve each file's date, sync it into the output tree, and tally
 * the outcomes.
 *
 * The directory walk is a sequence of entries in the order the walker
 * yields them; entries it could not read are already dropped. What the
 * sidecar files and EXIF blocks decode to is given per path.
 */
module Walker {
  import opened Wrappers
  import opened Strings
  import opened Paths
  import opened DateUtils
  import opened Metadata
  import opened FsOps

  /** One entry of the walk: its path and whether it is a directory. */
  datatype Entry = Entry(path: Path, isDir: bool)

  /** What happened to one eligible entry: its file name and the sync result. */
  datatype Record = Record(name: Option<string>, outcome: Result<FileAction, SyncError>)

  /** The counters of one run and the names of the files copied for the first time, in order. */
  datatype RunStats = RunStats(success: nat, skipped: nat, errors: nat, newFiles: seq<string>, progress: nat)

  predicate Eligible(e: Entry) {
    ShouldProcessFile(e.path, e.isDir)
  }

  /** The entries that pass `should_process_file`, in walk order. */
  function EligibleEntries(entries: seq<Entry>): (r: seq<Entry>)
    ensures |r| <= |entries|
    ensures forall i :: 0 <= i < |r| ==> Eligible(r[i])
    ensures forall e :: e in r <==> e in entries && Eligible(e)
  {
    if |entries| == 0 then []
    else
      var init := EligibleEntries(entries[..|entries| - 1]);
      assert entries == entries[..|entries| - 1] + [entries[|entries| - 1]];
      if Eligible(entries[|entries| - 1]) then init + [entries[|entries| - 1]] else init
  }

  /** `get_total_files`: the number of eligible entries of the walk. */
  function TotalFiles(entries: seq<Entry>): nat {
    |EligibleEntries(entries)|
  }

  /** A directory is an immediate child of `dir`. */
  predicate ChildOf(q: Path, dir: Path) {
    |q| == |dir| + 1 && q[..|dir|] == dir
  }

  /** The output exists as a directory and has at least one entry. */
  predicate IsIncremental(s: FsState, output: Path) {
    && output in s.dirs
    && ((exists q :: q in s.files.Keys && ChildOf(q, output)) || (exists q :: q in s.dirs && ChildOf(q, output)))
  }

  /**
   * The counters after one more record: a new or updated file counts as a
   * success, and a new one also lists its name; a skipped file and a
   * failure each have their own counter; progress advances for every record.
   */
  function Count(t: RunStats, r: Record): RunStats {
    match r.outcome
    case Ok(New) =>
      RunStats(t.success + 1, t.skipped, t.errors,
               if r.name.Some? then t.newFiles + [r.name.value] else t.newFiles, t.progress + 1)
    case Ok(Updated) => RunStats(t.success + 1, t.skipped, t.errors, t.newFiles, t.progress + 1)
    case Ok(Skipped) => RunStats(t.success, t.skipped + 1, t.errors, t.newFiles, t.progress + 1)
    case Err(_) => RunStats(t.success, t.skipped, t.errors + 1, t.newFiles, t.progress + 1)
  }

  const Zero := RunStats(0, 0, 0, [], 0)

  /** The counters of a sequence of records, folded in order. */
  function Tally(log: seq<Record>): RunStats {
    if |log| == 0 then Zero else Count(Tally(log[..|log| - 1]), log[|log| - 1])
  }

  /**
   * One entry of the walk from state `s`: an ineligible entry is passed
   * over; an eligible one has its date resolved and is synced, and leaves
   * one record.
   */
  function Step(s: FsState, denied: set<Path>, e: Entry, output: Path, unknown: Path,
                sidecars: Path -> SidecarFile, exif: Path -> Option<ExifFields>): (FsState, seq<Record>)
  {
    if !Eligible(e) then (s, [])
    else
      var date := DetermineDate(e.path, sidecars, exif(e.path));
      var (s', r) := ProcessFileSpec(s, denied, e.path, output, date, unknown);
      (s', [Record(FileName(e.path), r)])
  }

  /**
   * The run from state `s` over `entries`: every entry is stepped in walk
   * order, whatever happened to the entries before it. The result is the
   * final state and one record per eligible entry.
   */
  function OrganizeSpec(s: FsState, denied: set<Path>, entries: seq<Entry>, output: Path, unknown: Path,
                        sidecars: Path -> SidecarFile, exif: Path -> Option<ExifFields>): (FsState, seq<Record>)
  {
    if |entries| == 0 then (s, [])
    else
      var (s1, log) := OrganizeSpec(s, denied, entries[..|entries| - 1], output, unknown, sidecars, exif);
      var (s2, l) := Step(s1, denied, entries[|entries| - 1], output, unknown, sidecars, exif);
      (s2, log + l)
  }

  // ---------------------------------------------------------------------------
  // properties of the tally

  /** The number of records whose outcome satisfies `action`. */
  function CountActions(log: seq<Record>, action: FileAction): nat {
    if |log| == 0 then 0
    else CountActions(log[..|log| - 1], action) + if log[|log| - 1].outcome == Ok(action) then 1 else 0
  }

  function CountErrors(log: seq<Record>): nat {
    if |log| == 0 then 0
    else CountErrors(log[..|log| - 1]) + if log[|log| - 1].outcome.Err? then 1 else 0
  }

  /**
   * Each record increments exactly one of the three counters: success
   * counts New and Updated, skipped counts Skipped, errors counts failures;
   * progress advances once per record, and only New lists a name.
   */
  lemma {:induction false} TallyCounts(log: seq<Record>)
    ensures var t := Tally(log);
      && t.success == CountActions(log, New) + CountActions(log, Updated)
      && t.skipped == CountActions(log, Skipped)
      && t.errors == CountErrors(log)
      && t.success + t.skipped + t.errors == |log|
      && t.progress == |log|
      && |t.newFiles| <= CountActions(log, New) <= t.success
  {
    if |log| > 0 {
      TallyCounts(log[..|log| - 1]);
    }
  }

  /** The counters of a concatenation add up, and the new-file lists concatenate in order. */
  lemma {:induction false} TallyAppend(log1: seq<Record>, log2: seq<Record>)
    ensures var t1, t2, t := Tally(log1), Tally(log2), Tally(log1 + log2);
      && t.success == t1.success + t2.success
      && t.skipped == t1.skipped + t2.skipped
      && t.errors == t1.errors + t2.errors
      && t.progress == t1.progress + t2.progress
      && t.newFiles == t1.newFiles + t2.newFiles
    decreases |log2|
  {
    if |log2| == 0 {
      assert log1 + log2 == log1;
    } else {
      var init := log2[..|log2| - 1];
      assert (log1 + log2)[..|log1 + log2| - 1] == log1 + init;
      TallyAppend(log1, init);
      assert (log1 + log2)[|log1 + log2| - 1] == log2[|log2| - 1];
    }
  }

  /** Folding one more record applies `Count` to the tally so far. */
  lemma TallyStep(log: seq<Record>, r: Record)
    ensures Tally(log + [r]) == Count(Tally(log), r)
  {
    assert (log + [r])[..|log|] == log;
  }

  /** A single record's contribution. */
  lemma TallySingle(r: Record)
    ensures Tally([r]) == Count(Zero, r)
  {
    assert [r][..0] == [];
  }

  /** A record of a file copied for the first time lists its name; any other record lists nothing. */
  lemma TallyNewFile(log: seq<Record>, r: Record)
    ensures Tally(log + [r]).newFiles ==
      Tally(log).newFiles + (if r.outcome == Ok(New) && r.name.Some? then [r.name.value] else [])
  {
    TallyStep(log, r);
  }

  // ---------------------------------------------------------------------------
  // properties of the run

  /** Every eligible entry has a file name, since it has an extension. */
  lemma EligibleHasName(e: Entry)
    requires Eligible(e)
    ensures FileName(e.path).Some?
  {
  }

  /** The processing pass produces one record per entry that the counting pass counts. */
  lemma {:induction false} OrganizeRecordsEligible(s: FsState, denied: set<Path>, entries: seq<Entry>, output: Path, unknown: Path,
                                                   sidecars: Path -> SidecarFile, exif: Path -> Option<ExifFields>)
    ensures var (s', log) := OrganizeSpec(s, denied, entries, output, unknown, sidecars, exif);
      && |log| == TotalFiles(entries)
      && (forall i :: 0 <= i < |log| ==> log[i].name == FileName(EligibleEntries(entries)[i].path) && log[i].name.Some?)
  {
    if |entries| > 0 {
      var init := entries[..|entries| - 1];
      OrganizeRecordsEligible(s, denied, init, output, unknown, sidecars, exif);
      var e := entries[|entries| - 1];
      if Eligible(e) {
        EligibleHasName(e);
      }
    }
  }

  /**
   * The run over a concatenation is the run over the first part followed by
   * the run over the second part from the state the first left: no outcome,
   * failure included, stops the walk.
   */
  lemma {:induction false} OrganizeAppend(s: FsState, denied: set<Path>, es1: seq<Entry>, es2: seq<Entry>, output: Path, unknown: Path,
                                          sidecars: Path -> SidecarFile, exif: Path -> Option<ExifFields>)
    ensures var (s1, log1) := OrganizeSpec(s, denied, es1, output, unknown, sidecars, exif);
      var (s2, log2) := OrganizeSpec(s1, denied, es2, output, unknown, sidecars, exif);
      OrganizeSpec(s, denied, es1 + es2, output, unknown, sidecars, exif) == (s2, log1 + log2)
    decreases |es2|
  {
    if |es2| == 0 {
      assert es1 + es2 == es1;
      var (s1, log1) := OrganizeSpec(s, denied, es1, output, unknown, sidecars, exif);
      assert log1 + [] == log1;
    } else {
      var init := es2[..|es2| - 1];
      assert (es1 + es2)[..|es1 + es2| - 1] == es1 + init;
      assert (es1 + es2)[|es1 + es2| - 1] == es2[|es2| - 1];
      OrganizeAppend(s, denied, es1, init, output, unknown, sidecars, exif);
      var (s1, log1) := OrganizeSpec(s, denied, es1, output, unknown, sidecars, exif);
      var (s2, log2) := OrganizeSpec(s1, denied, init, output, unknown, sidecars, exif);
      var (s3, l) := Step(s2, denied, es2[|es2| - 1], output, unknown, sidecars, exif);
      assert log1 + log2 + l == log1 + (log2 + l);
    }
  }

  /** The run over one more entry of the walk is one more step. */
  lemma OrganizePrefixStep(s: FsState, denied: set<Path>, entries: seq<Entry>, i: nat, output: Path, unknown: Path,
                           sidecars: Path -> SidecarFile, exif: Path -> Option<ExifFields>)
    requires i < |entries|
    ensures var (s1, log) := OrganizeSpec(s, denied, entries[..i], output, unknown, sidecars, exif);
      var (s2, l) := Step(s1, denied, entries[i], output, unknown, sidecars, exif);
      OrganizeSpec(s, denied, entries[..i + 1], output, unknown, sidecars, exif) == (s2, log + l)
  {
    assert entries[..i + 1][..i] == entries[..i] && entries[..i + 1][i] == entries[i];
  }

  /** Ineligible entries never reach date resolution or sync: dropping them changes nothing. */
  lemma {:induction false} OrganizeIgnoresIneligible(s: FsState, denied: set<Path>, entries: seq<Entry>, output: Path, unknown: Path,
                                                     sidecars: Path -> SidecarFile, exif: Path -> Option<ExifFields>)
    ensures OrganizeSpec(s, denied, entries, output, unknown, sidecars, exif)
         == OrganizeSpec(s, denied, EligibleEntries(entries), output, unknown, sidecars, exif)
  {
    if |entries| > 0 {
      var init := entries[..|entries| - 1];
      var e := entries[|entries| - 1];
      OrganizeIgnoresIneligible(s, denied, init, output, unknown, sidecars, exif);
      var (s1, log) := OrganizeSpec(s, denied, init, output, unknown, sidecars, exif);
      var (s2, l) := Step(s1, denied, e, output, unknown, sidecars, exif);
      assert OrganizeSpec(s, denied, entries, output, unknown, sidecars, exif) == (s2, log + l);
      if Eligible(e) {
        var el := EligibleEntries(init) + [e];
        assert el[..|el| - 1] == EligibleEntries(init) && el[|el| - 1] == e;
        assert OrganizeSpec(s, denied, el, output, unknown, sidecars, exif) == (s2, log + l);
      } else {
        assert EligibleEntries(entries) == EligibleEntries(init);
        assert l == [] && s2 == s1;
        assert log + l == log;
      }
    }
  }

  /**
   * The counters of a run against the counting pass: success, skipped and
   * errors add up to the number of eligible entries, progress reaches it,
   * and the new-file list has one name per file copied for the first time.
   */
  lemma OrganizeTotals(s: FsState, denied: set<Path>, entries: seq<Entry>, output: Path, unknown: Path,
                       sidecars: Path -> SidecarFile, exif: Path -> Option<ExifFields>)
    ensures var (s', log) := OrganizeSpec(s, denied, entries, output, unknown, sidecars, exif);
      var t := Tally(log);
      && t.success + t.skipped + t.errors == TotalFiles(entries)
      && t.progress == TotalFiles(entries)
      && |t.newFiles| == CountActions(log, New) <= t.success
  {
    var (s', log) := OrganizeSpec(s, denied, entries, output, unknown, sidecars, exif);
    OrganizeRecordsEligible(s, denied, entries, output, unknown, sidecars, exif);
    TallyCounts(log);
    TallyNamedNewFiles(log);
  }

  /** When every record carries a name, the new-file list has exactly one entry per New outcome. */
  lemma {:induction false} TallyNamedNewFiles(log: seq<Record>)
    requires forall i :: 0 <= i < |log| ==> log[i].name.Some?
    ensures |Tally(log).newFiles| == CountActions(log, New)
  {
    if |log| > 0 {
      TallyNamedNewFiles(log[..|log| - 1]);
    }
  }

  // ---------------------------------------------------------------------------
  // the incremental flag across runs

  /** Growing the directories and the set of file names keeps an output non-empty. */
  lemma IncrementalPreserved(s: FsState, s': FsState, output: Path)
    requires s.dirs <= s'.dirs && s.files.Keys <= s'.files.Keys
    requires IsIncremental(s, output)
    ensures IsIncremental(s', output)
  {
    if q :| q in s.files.Keys && ChildOf(q, output) {
      assert q in s'.files.Keys;
    } else {
      var q :| q in s.dirs && ChildOf(q, output);
      assert q in s'.dirs;
    }
  }

  /** A sync that writes its destination leaves a non-empty output behind. */
  lemma WrittenOutputIsIncremental(s: FsState, denied: set<Path>, input: Path, output: Path,
                                   date: Option<DateTime>, unknown: Path)
    requires date.Some? ==> ValidDateTime(date.value)
    requires |output| >= 1
    requires var r := ProcessFileSpec(s, denied, input, output, date, unknown).1; r.Ok? && ActionWritten(r.value)
    ensures IsIncremental(ProcessFileSpec(s, denied, input, output, date, unknown).0, output)
  {
    var folder := DestFolder(output, date, unknown);
    var (s1, ok) := MkdirsFrom(s, denied, folder, 1);
    MkdirsFromSpec(s, denied, folder, 1);
    var name := FileName(input).value;
    var s' := ProcessFileSpec(s, denied, input, output, date, unknown).0;
    assert s' == SyncInto(s1, denied, input, folder + [name]).0;
    assert s'.dirs == s1.dirs;
    assert folder[..|output|] == output;
    assert output in s'.dirs;
    if |folder| > |output| {
      assert ChildOf(folder[..|output| + 1], output);
      assert folder[..|output| + 1] in s'.dirs;
    } else {
      assert folder == output;
      assert ChildOf(folder + [name], output);
      assert folder + [name] in s'.files.Keys;
    }
  }

  /** One step never removes a directory or a file name. */
  lemma StepGrows(s: FsState, denied: set<Path>, e: Entry, output: Path, unknown: Path,
                  sidecars: Path -> SidecarFile, exif: Path -> Option<ExifFields>)
    ensures var s' := Step(s, denied, e, output, unknown, sidecars, exif).0;
      s.dirs <= s'.dirs && s.files.Keys <= s'.files.Keys
  {
    if Eligible(e) {
      var date := DetermineDate(e.path, sidecars, exif(e.path));
      ProcessFileFrame(s, denied, e.path, output, date, unknown);
    }
  }

  /** A run that copied or overwrote at least one file makes the next run over the same output incremental. */
  lemma {:induction false} RunMakesIncremental(s: FsState, denied: set<Path>, entries: seq<Entry>, output: Path, unknown: Path,
                                               sidecars: Path -> SidecarFile, exif: Path -> Option<ExifFields>)
    requires |output| >= 1
    requires Tally(OrganizeSpec(s, denied, entries, output, unknown, sidecars, exif).1).success > 0
    ensures IsIncremental(OrganizeSpec(s, denied, entries, output, unknown, sidecars, exif).0, output)
  {
    var init, e := entries[..|entries| - 1], entries[|entries| - 1];
    var (s1, log) := OrganizeSpec(s, denied, init, output, unknown, sidecars, exif);
    var (s2, l) := Step(s1, denied, e, output, unknown, sidecars, exif);
    assert OrganizeSpec(s, denied, entries, output, unknown, sidecars, exif) == (s2, log + l);
    if l == [] {
      assert log + l == log;
      RunMakesIncremental(s, denied, init, output, unknown, sidecars, exif);
    } else {
      TallyStep(log, l[0]);
      assert l == [l[0]];
      var date := DetermineDate(e.path, sidecars, exif(e.path));
      var r := ProcessFileSpec(s1, denied, e.path, output, date, unknown).1;
      if r.Ok? && ActionWritten(r.value) {
        WrittenOutputIsIncremental(s1, denied, e.path, output, date, unknown);
      } else {
        RunMakesIncremental(s, denied, init, output, unknown, sidecars, exif);
        StepGrows(s1, denied, e, output, unknown, sidecars, exif);
        IncrementalPreserved(s1, s2, output);
      }
    }
  }

  /** A JSON sidecar candidate is never itself an eligible media file. */
  lemma SidecarsNotEligible(p: Path, isDir: bool)
    ensures !ShouldProcessFile(SidecarCandidates(p).0, isDir)
    ensures !ShouldProcessFile(SidecarCandidates(p).1, isDir)
  {
    if FileName(p).Some? {
      var dir, name := p[..|p| - 1], p[|p| - 1];
      JsonSuffixNotEligible(dir, name, isDir);
      JsonSuffixNotEligible(dir, NameStem(name), isDir);
    } else {
      assert SidecarCandidates(p) == (p, p);
      if !isDir && Extension(p).Some? {
        assert false;
      }
    }
  }

  /** A name ending in ".json" is never eligible. */
  lemma JsonSuffixNotEligible(dir: Path, stem: string, isDir: bool)
    ensures !ShouldProcessFile(dir + [stem + ".json"], isDir)
  {
    var name := stem + ".json";
    assert name != "..";
    assert (dir + [name])[..|dir|] == dir;
    if stem == "" {
      assert forall k :: 0 < k < |name| ==> name[k] != '.';
      match LastDot(name)
      case None =>
      case Some(i) => assert i == 0;
    } else {
      assert stem + "." + "json" == name;
      assert AsciiLower("json") == "json";
      ShouldProcessFileIgnoresCase(dir, stem, "json");
    }
  }

  // ---------------------------------------------------------------------------
  // the run as a loop

  /** The body of the walk for an eligible entry: resolve its date and sync it. */
  method SyncEntry(fs: FileSystem, e: Entry, output: Path, unknown: Path,
                   sidecars: Path -> SidecarFile, exif: Path -> Option<ExifFields>)
    returns (record: Record)
    requires Eligible(e)
    modifies fs
    ensures (fs.State(), [record]) == Step(old(fs.State()), fs.denied, e, output, unknown, sidecars, exif)
  {
    var date := DetermineDate(e.path, sidecars, exif(e.path));
    var r := fs.ProcessFile(e.path, output, date, unknown);
    record := Record(FileName(e.path), r);
  }

  /**
   * `organize_files`: decide whether this is an incremental run, count the
   * eligible entries, then process the walk entry by entry, updating the
   * counters and the list of new files.
   */
  method OrganizeFiles(fs: FileSystem, entries: seq<Entry>, output: Path, unknown: Path,
                       sidecars: Path -> SidecarFile, exif: Path -> Option<ExifFields>)
    returns (stats: RunStats, total: nat, incremental: bool)
    modifies fs
    ensures incremental == IsIncremental(old(fs.State()), output)
    ensures total == TotalFiles(entries)
    ensures var (s', log) := OrganizeSpec(old(fs.State()), fs.denied, entries, output, unknown, sidecars, exif);
      fs.State() == s' && stats == Tally(log)
  {
    incremental := IsIncremental(fs.State(), output);
    total := TotalFiles(entries);
    stats := Zero;
    ghost var s0 := fs.State();
    ghost var log: seq<Record> := [];
    for i := 0 to |entries|
      invariant (fs.State(), log) == OrganizeSpec(s0, fs.denied, entries[..i], output, unknown, sidecars, exif)
      invariant stats == Tally(log)
    {
      var e := entries[i];
      ghost var step := Step(fs.State(), fs.denied, e, output, unknown, sidecars, exif);
      OrganizePrefixStep(s0, fs.denied, entries, i, output, unknown, sidecars, exif);
      if !ShouldProcessFile(e.path, e.isDir) {
        assert log + step.1 == log;
        continue;
      }
      var record := SyncEntry(fs, e, output, unknown, sidecars, exif);
      TallyStep(log, record);
      log := log + [record];
      stats := Count(stats, record);
    }
    assert entries[..|entries|] == entries;
  }
}
