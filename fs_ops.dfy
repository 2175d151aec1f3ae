/**
 * fs_ops.rs: which walked entries are media files, and the synchronisation
 * of one media file into the dated destination tree.
 *
 * The file system is a map from file paths to contents plus a set of
 * directories. `denied` names the paths at which the operating system
 * refuses to create a directory or write a file (permissions, read-only
 * mounts); it does not change while the organizer runs.
 */
module FsOps {
  import opened Wrappers
  import opened Strings
  import opened Paths
  import opened Calendar
  import opened DateUtils

  newtype byte = x: int | 0 <= x < 256

  type Bytes = seq<byte>

  // ---------------------------------------------------------------------------
  // should_process_file

  /**
   * `should_process_file`: a directory is never eligible; a file is eligible
   * unless its extension, lower-cased, is empty or "json" (an absent
   * extension counts as empty).
   */
  function ShouldProcessFile(p: Path, isDir: bool): bool {
    if isDir then false
    else
      var ext := match Extension(p) case None => "" case Some(e) => AsciiLower(e);
      !(ext == "json" || ext == "")
  }

  /**
   * Eligibility in terms of the file name: a file is eligible exactly when
   * it has a dot after its first character, the text after the last dot is
   * non-empty, and that text is not "json" in any letter case.
   */
  lemma ShouldProcessFileSpec(dir: Path, name: string, isDir: bool)
    requires name != ".."
    ensures ShouldProcessFile(dir + [name], isDir) <==>
      && !isDir
      && (exists i :: 1 <= i < |name| - 1 && name[i] == '.'
                      && (forall k :: i < k < |name| ==> name[k] != '.')
                      && AsciiLower(name[i + 1..]) != "json")
  {
    var p := dir + [name];
    assert FileName(p) == Some(name);
    match LastDot(name)
    case None =>
    case Some(i) =>
      if !isDir && i >= 1 && i < |name| - 1 && AsciiLower(name[i + 1..]) != "json" {
        assert AsciiLower(name[i + 1..]) != "";
      }
      forall j | 1 <= j < |name| - 1 && name[j] == '.' && (forall k :: j < k < |name| ==> name[k] != '.')
        ensures j == i
      {
      }
  }

  /** The extension comparison ignores ASCII letter case. */
  lemma ShouldProcessFileIgnoresCase(dir: Path, stem: string, ext: string)
    requires stem != "" && forall k :: 0 <= k < |ext| ==> ext[k] != '.'
    requires AsciiLower(ext) == "json"
    ensures !ShouldProcessFile(dir + [stem + "." + ext], false)
  {
    var name := stem + "." + ext;
    assert name[|stem|] == '.';
    assert forall k :: |stem| < k < |name| ==> name[k] == ext[k - |stem| - 1];
    match LastDot(name)
    case Some(i) =>
      assert i == |stem|;
      assert name[i + 1..] == ext;
  }

  /** The extension of a one-component path whose last dot is at `i`. */
  lemma ExtensionAt(name: string, i: nat)
    requires 1 <= i < |name| && name[i] == '.' && name != ".."
    requires forall k :: i < k < |name| ==> name[k] != '.'
    ensures Extension([name]) == Some(name[i + 1..])
  {
    assert LastDot(name) == Some(i);
  }

  /** A file `stem.ext` with a dot-free `ext` is eligible exactly when `ext` is neither empty nor "json" in any case. */
  lemma ShouldProcessJoined(dir: Path, stem: string, ext: string)
    requires stem != "" && forall k :: 0 <= k < |ext| ==> ext[k] != '.'
    requires stem + "." + ext != ".."
    ensures ShouldProcessFile(dir + [stem + "." + ext], false) <==> ext != "" && AsciiLower(ext) != "json"
  {
    ExtensionOfJoin(dir, stem, ext);
  }

  /** `photo.jpg` is eligible. */
  lemma ShouldProcessAcceptsPhoto()
    ensures ShouldProcessFile(["photo" + "." + "jpg"], false)
  {
    ShouldProcessJoined([], "photo", "jpg");
  }

  /** `video.mp4` is eligible. */
  lemma ShouldProcessAcceptsVideo()
    ensures ShouldProcessFile(["video" + "." + "mp4"], false)
  {
    ShouldProcessJoined([], "video", "mp4");
  }

  /** `IMAGE.PNG` is eligible: the extension is compared in lower case. */
  lemma ShouldProcessAcceptsUpperCase()
    ensures ShouldProcessFile(["IMAGE" + "." + "PNG"], false)
  {
    assert |AsciiLower("PNG")| == 3;
    ShouldProcessJoined([], "IMAGE", "PNG");
  }

  /** `metadata.json` is not eligible, and neither is any directory. */
  lemma ShouldProcessRejectsJson()
    ensures !ShouldProcessFile(["metadata" + "." + "json"], false)
    ensures !ShouldProcessFile(["photo" + "." + "jpg"], true)
  {
    assert AsciiLower("json") == "json";
    ShouldProcessJoined([], "metadata", "json");
  }

  /** A name without a dot, or whose only dot leads it, has no extension and is rejected. */
  lemma ShouldProcessRejectsNoExtension(name: string)
    requires name == "no_extension" || name == ".hidden"
    ensures !ShouldProcessFile([name], false)
  {
    assert forall k :: 0 < k < |name| ==> name[k] != '.';
    match LastDot(name)
    case None =>
    case Some(i) => assert i == 0;
  }

  // ---------------------------------------------------------------------------
  // the file-system model

  datatype FsState = FsState(files: map<Path, Bytes>, dirs: set<Path>)

  /** A path names something: a file or a directory (`Path::exists`). */
  predicate Exists(s: FsState, p: Path) {
    p in s.files || p in s.dirs
  }

  /**
   * `fs::create_dir_all` from the `k`-th prefix on: each missing ancestor
   * of `p` is created in turn, shortest first; the call fails at the first
   * ancestor that is a file or that the system refuses to create, keeping
   * the directories created before it.
   */
  function MkdirsFrom(s: FsState, denied: set<Path>, p: Path, k: nat): (FsState, bool)
    decreases |p| + 1 - k
  {
    if k > |p| then (s, true)
    else
      var q := p[..k];
      if q in s.dirs then MkdirsFrom(s, denied, p, k + 1)
      else if q in s.files || q in denied then (s, false)
      else MkdirsFrom(FsState(s.files, s.dirs + {q}), denied, p, k + 1)
  }

  /** A prefix of `p` at one of the lengths `k..|p|` can be made a directory. */
  predicate Creatable(s: FsState, denied: set<Path>, q: Path) {
    q in s.dirs || (q !in s.files && q !in denied)
  }

  /**
   * What `create_dir_all` promises: files are untouched; it succeeds exactly
   * when every ancestor is already a directory or can be created, and then
   * every ancestor is a directory; only ancestors of `p` are added.
   */
  lemma {:induction false} MkdirsFromSpec(s: FsState, denied: set<Path>, p: Path, k: nat)
    requires 1 <= k
    ensures var (s', ok) := MkdirsFrom(s, denied, p, k);
      && s'.files == s.files
      && s.dirs <= s'.dirs
      && (forall q :: q in s'.dirs && q !in s.dirs ==> k <= |q| <= |p| && q == p[..|q|])
      && (ok <==> forall j :: k <= j <= |p| ==> Creatable(s, denied, p[..j]))
      && (ok ==> forall j :: k <= j <= |p| ==> p[..j] in s'.dirs)
    decreases |p| + 1 - k
  {
    if k <= |p| {
      var q := p[..k];
      var s1 := if q in s.dirs then s else FsState(s.files, s.dirs + {q});
      if q in s.dirs || (q !in s.files && q !in denied) {
        MkdirsFromSpec(s1, denied, p, k + 1);
        // prefixes longer than `q` are unaffected by adding `q`
        forall j | k + 1 <= j <= |p|
          ensures Creatable(s1, denied, p[..j]) <==> Creatable(s, denied, p[..j])
        {
          assert |p[..j]| != |q|;
        }
      }
    }
  }

  /** Creating a directory tree that already exists changes nothing. */
  lemma {:induction false} MkdirsFromExisting(s: FsState, denied: set<Path>, p: Path, k: nat)
    requires forall j :: k <= j <= |p| ==> p[..j] in s.dirs
    ensures MkdirsFrom(s, denied, p, k) == (s, true)
    decreases |p| + 1 - k
  {
    if k <= |p| {
      MkdirsFromExisting(s, denied, p, k + 1);
    }
  }

  // ---------------------------------------------------------------------------
  // process_file

  /** How a successful sync left the destination. */
  datatype FileAction = New | Updated | Skipped

  datatype SyncError =
    | CreateDirFailed      // `create_dir_all` failed
    | SourceUnreadable     // the metadata of the source could not be read
    | DestinationNotFile   // a directory occupies the destination name
    | CopyFailed           // `fs::copy` failed

  /**
   * The destination folder: `output/<year>/<MM>/<DD>` with the year in
   * plain decimal and month and day zero-padded to two digits, or
   * `output/<unknown>` for a file without a date.
   */
  function DestFolder(output: Path, date: Option<DateTime>, unknown: Path): (r: Path)
    requires date.Some? ==> ValidDateTime(date.value)
    ensures date.None? ==> r == output + unknown
    ensures date.Some? ==> |r| == |output| + 3 && r[..|output|] == output
    ensures date.Some? ==> var d := date.value.date;
      && r[|output|] == IntToString(d.year)
      && |r[|output| + 1]| == 2 && AllDigits(r[|output| + 1]) && DigitsValue(r[|output| + 1]) == d.month
      && |r[|output| + 2]| == 2 && AllDigits(r[|output| + 2]) && DigitsValue(r[|output| + 2]) == d.day
  {
    match date
    case Some(t) => output + [IntToString(t.date.year), Pad2(t.date.month), Pad2(t.date.day)]
    case None => output + unknown
  }

  /** The step after the destination folder exists: compare, then copy or skip. */
  function SyncInto(s: FsState, denied: set<Path>, input: Path, dest: Path): (FsState, Result<FileAction, SyncError>) {
    if Exists(s, dest) then
      if input !in s.files then (s, Err(SourceUnreadable))
      else if dest in s.dirs then (s, Err(DestinationNotFile))
      else if |s.files[input]| != |s.files[dest]| then
        if dest in denied then (s, Err(CopyFailed))
        else (FsState(s.files[dest := s.files[input]], s.dirs), Ok(Updated))
      else
        (s, Ok(Skipped))
    else
      if input !in s.files || dest in denied then (s, Err(CopyFailed))
      else (FsState(s.files[dest := s.files[input]], s.dirs), Ok(New))
  }

  /** The file a dated or undated input is copied to, when the input has a file name. */
  function DestPath(input: Path, output: Path, date: Option<DateTime>, unknown: Path): Option<Path>
    requires date.Some? ==> ValidDateTime(date.value)
  {
    match FileName(input)
    case None => None
    case Some(name) => Some(DestFolder(output, date, unknown) + [name])
  }

  /**
   * `process_file`: create the destination folder, then copy the input to
   * `<folder>/<file name>` when nothing is there (New), overwrite it when
   * its length differs (Updated), or leave it alone when the length is the
   * same (Skipped). An input without a file name is skipped once the folder
   * exists.
   */
  function ProcessFileSpec(s: FsState, denied: set<Path>, input: Path, output: Path,
                           date: Option<DateTime>, unknown: Path): (FsState, Result<FileAction, SyncError>)
    requires date.Some? ==> ValidDateTime(date.value)
  {
    var folder := DestFolder(output, date, unknown);
    var (s1, ok) := MkdirsFrom(s, denied, folder, 1);
    if !ok then (s1, Err(CreateDirFailed))
    else
      match FileName(input)
      case None => (s1, Ok(Skipped))
      case Some(name) => SyncInto(s1, denied, input, folder + [name])
  }

  /** The bool that fs.rs's `process_file` returns: whether the destination was written. */
  function ActionWritten(a: FileAction): bool {
    a == New || a == Updated
  }

  /** `process_file` as its signature `Result<bool>` reports it. */
  function ProcessFileAsWritten(s: FsState, denied: set<Path>, input: Path, output: Path,
                                date: Option<DateTime>, unknown: Path): (r: Result<bool, SyncError>)
    requires date.Some? ==> ValidDateTime(date.value)
  {
    match ProcessFileSpec(s, denied, input, output, date, unknown).1
    case Ok(a) => Ok(ActionWritten(a))
    case Err(e) => Err(e)
  }

  /**
   * Only the destination file and the new directories can change: every
   * other file keeps its content, the destination (if written) receives
   * exactly the source bytes, and every new directory is an ancestor of
   * the destination folder.
   */
  lemma ProcessFileFrame(s: FsState, denied: set<Path>, input: Path, output: Path,
                         date: Option<DateTime>, unknown: Path)
    requires date.Some? ==> ValidDateTime(date.value)
    ensures var (s', r) := ProcessFileSpec(s, denied, input, output, date, unknown);
      var folder := DestFolder(output, date, unknown);
      && s.dirs <= s'.dirs
      && (forall q :: q in s'.dirs && q !in s.dirs ==> 1 <= |q| <= |folder| && q == folder[..|q|])
      && (!(r.Ok? && ActionWritten(r.value)) ==> s'.files == s.files)
      && (r.Ok? && ActionWritten(r.value) ==>
            DestPath(input, output, date, unknown).Some? && input in s.files &&
            s'.files == s.files[DestPath(input, output, date, unknown).value := s.files[input]])
  {
    MkdirsFromSpec(s, denied, DestFolder(output, date, unknown), 1);
  }

  /** A failed `create_dir_all` is reported and no file is copied. */
  lemma ProcessFileDirFailure(s: FsState, denied: set<Path>, input: Path, output: Path,
                              date: Option<DateTime>, unknown: Path)
    requires date.Some? ==> ValidDateTime(date.value)
    ensures var folder := DestFolder(output, date, unknown);
      var (s', r) := ProcessFileSpec(s, denied, input, output, date, unknown);
      && (r == Err(CreateDirFailed) <==> exists j :: 1 <= j <= |folder| && !Creatable(s, denied, folder[..j]))
      && (r == Err(CreateDirFailed) ==> s'.files == s.files)
  {
    MkdirsFromSpec(s, denied, DestFolder(output, date, unknown), 1);
  }

  /** The outcome of the sync step from the state after the folder exists. */
  lemma SyncIntoOutcomes(s: FsState, denied: set<Path>, input: Path, dest: Path)
    ensures var (s', r) := SyncInto(s, denied, input, dest);
      && (r == Ok(New) <==> !Exists(s, dest) && input in s.files && dest !in denied)
      && (r == Ok(Updated) <==> dest in s.files && dest !in s.dirs && input in s.files
                                && |s.files[input]| != |s.files[dest]| && dest !in denied)
      && (r == Ok(Skipped) <==> dest in s.files && dest !in s.dirs && input in s.files
                                && |s.files[input]| == |s.files[dest]|)
      && (r.Ok? && ActionWritten(r.value) ==> s' == FsState(s.files[dest := s.files[input]], s.dirs))
      && (!(r.Ok? && ActionWritten(r.value)) ==> s' == s)
  {
  }

  /**
   * A destination of the same length is left exactly as it was, even when
   * its content differs from the source.
   */
  lemma SkippedKeepsDifferentContent(s: FsState, denied: set<Path>, input: Path, dest: Path)
    requires dest in s.files && dest !in s.dirs && input in s.files
    requires |s.files[input]| == |s.files[dest]| && s.files[input] != s.files[dest]
    ensures SyncInto(s, denied, input, dest) == (s, Ok(Skipped))
    ensures SyncInto(s, denied, input, dest).0.files[dest] != s.files[input]
  {
  }

  /**
   * Idempotence: once a file has been written, syncing it again with an
   * unchanged source changes nothing and reports Skipped.
   */
  lemma ProcessFileIdempotent(s: FsState, denied: set<Path>, input: Path, output: Path,
                              date: Option<DateTime>, unknown: Path)
    requires date.Some? ==> ValidDateTime(date.value)
    requires ProcessFileSpec(s, denied, input, output, date, unknown).1.Ok?
    ensures var (s1, r1) := ProcessFileSpec(s, denied, input, output, date, unknown);
      ProcessFileSpec(s1, denied, input, output, date, unknown) == (s1, Ok(Skipped))
  {
    var folder := DestFolder(output, date, unknown);
    MkdirsFromSpec(s, denied, folder, 1);
    var (s0, ok) := MkdirsFrom(s, denied, folder, 1);
    var (s1, r1) := ProcessFileSpec(s, denied, input, output, date, unknown);
    assert s0.dirs <= s1.dirs;
    MkdirsFromExisting(s1, denied, folder, 1);
    match FileName(input)
    case None =>
    case Some(name) =>
      SyncIntoOutcomes(s0, denied, input, folder + [name]);
      SyncIntoOutcomes(s1, denied, input, folder + [name]);
  }

  /** A first sync of a file into an empty destination copies it and reports New; a second reports Skipped. */
  lemma ProcessFileNewThenSkipped(src: Bytes, denied: set<Path>, input: Path, output: Path, date: Option<DateTime>, unknown: Path)
    requires date.Some? ==> ValidDateTime(date.value)
    requires FileName(input).Some? && input !in denied
    requires var folder := DestFolder(output, date, unknown);
      && (forall j :: 1 <= j <= |folder| ==> folder[..j] !in denied)
      && folder + [FileName(input).value] !in denied
      && (forall j :: 1 <= j <= |folder| ==> folder[..j] != input)
      && folder + [FileName(input).value] != input
    ensures var s := FsState(map[input := src], {});
      var (s1, r1) := ProcessFileSpec(s, denied, input, output, date, unknown);
      var dest := DestPath(input, output, date, unknown).value;
      && r1 == Ok(New)
      && s1.files == map[input := src, dest := src]
      && ProcessFileSpec(s1, denied, input, output, date, unknown) == (s1, Ok(Skipped))
  {
    var s := FsState(map[input := src], {});
    var folder := DestFolder(output, date, unknown);
    MkdirsFromSpec(s, denied, folder, 1);
    var (s0, ok) := MkdirsFrom(s, denied, folder, 1);
    assert ok;
    assert s0.files == s.files;
    var dest := folder + [FileName(input).value];
    assert dest !in s0.dirs by {
      assert |dest| == |folder| + 1;
    }
    SyncIntoOutcomes(s0, denied, input, dest);
    ProcessFileIdempotent(s, denied, input, output, date, unknown);
  }

  /** Whether the destination changed length decides between Updated and Skipped. */
  lemma ProcessFileChangeDetection(s: FsState, denied: set<Path>, input: Path, output: Path,
                                   date: Option<DateTime>, unknown: Path)
    requires date.Some? ==> ValidDateTime(date.value)
    requires DestPath(input, output, date, unknown).Some?
    requires var dest := DestPath(input, output, date, unknown).value;
      input in s.files && dest in s.files && dest !in s.dirs && dest !in denied
    requires var (s0, ok) := MkdirsFrom(s, denied, DestFolder(output, date, unknown), 1); ok
    ensures var dest := DestPath(input, output, date, unknown).value;
      ProcessFileSpec(s, denied, input, output, date, unknown).1 ==
        if |s.files[input]| != |s.files[dest]| then Ok(Updated) else Ok(Skipped)
    ensures var dest := DestPath(input, output, date, unknown).value;
      var s' := ProcessFileSpec(s, denied, input, output, date, unknown).0;
      s'.files == if |s.files[input]| != |s.files[dest]| then s.files[dest := s.files[input]] else s.files
  {
    var folder := DestFolder(output, date, unknown);
    MkdirsFromSpec(s, denied, folder, 1);
    var dest := folder + [FileName(input).value];
    var (s0, ok) := MkdirsFrom(s, denied, folder, 1);
    assert dest !in s0.dirs by {
      assert |dest| == |folder| + 1;
    }
    SyncIntoOutcomes(s0, denied, input, dest);
  }

  /** An input without a file name is reported as Skipped once the folder exists, and no file changes. */
  lemma ProcessFileNoName(s: FsState, denied: set<Path>, input: Path, output: Path,
                          date: Option<DateTime>, unknown: Path)
    requires date.Some? ==> ValidDateTime(date.value)
    requires FileName(input).None?
    ensures var (s', r) := ProcessFileSpec(s, denied, input, output, date, unknown);
      && s'.files == s.files
      && (r.Ok? <==> r == Ok(Skipped))
  {
    MkdirsFromSpec(s, denied, DestFolder(output, date, unknown), 1);
  }

  /**
   * The bool result of the source's signature merges New and Updated, so a
   * caller cannot tell a first copy from an overwrite: the two states below
   * give different actions but the same bool.
   */
  lemma AsWrittenLosesAction(src: Bytes, previous: Bytes, input: Path, name: string)
    requires |src| != |previous| && FileName(input) == Some(name)
    requires |input| >= 2 && input[0] == "in"
    ensures var dest := ["out", "unknown", name];
      var untouched := FsState(map[input := src], {["out"], ["out", "unknown"]});
      var stale := FsState(map[input := src, dest := previous], {["out"], ["out", "unknown"]});
      && ProcessFileSpec(untouched, {}, input, ["out"], None, ["unknown"]).1 == Ok(New)
      && ProcessFileSpec(stale, {}, input, ["out"], None, ["unknown"]).1 == Ok(Updated)
      && ProcessFileAsWritten(untouched, {}, input, ["out"], None, ["unknown"])
         == ProcessFileAsWritten(stale, {}, input, ["out"], None, ["unknown"])
  {
    var folder: Path := ["out", "unknown"];
    var dest := folder + [name];
    assert dest == ["out", "unknown", name];
    assert folder[..1] == ["out"] && folder[..2] == folder;
    var dirs := {["out"], ["out", "unknown"]};
    assert dest !in dirs by {
      assert |dest| == 3;
    }
    assert input != dest by {
      assert input[0] != dest[0];
    }
    var untouched := FsState(map[input := src], dirs);
    var stale := FsState(map[input := src, dest := previous], dirs);
    MkdirsFromExisting(untouched, {}, folder, 1);
    MkdirsFromExisting(stale, {}, folder, 1);
    assert DestFolder(["out"], None, ["unknown"]) == folder;
  }

  // ---------------------------------------------------------------------------
  // the file system as an object

  /** The file system that the organizer reads and writes. */
  class FileSystem {
    var files: map<Path, Bytes>
    var dirs: set<Path>
    const denied: set<Path>

    function State(): FsState
      reads this
    {
      FsState(files, dirs)
    }

    constructor (files0: map<Path, Bytes>, dirs0: set<Path>, denied0: set<Path>)
      ensures State() == FsState(files0, dirs0) && denied == denied0
    {
      files, dirs, denied := files0, dirs0, denied0;
    }

    /** `fs::create_dir_all`. */
    method CreateDirAll(p: Path) returns (ok: bool)
      modifies this
      ensures (State(), ok) == MkdirsFrom(old(State()), denied, p, 1)
    {
      var k := 1;
      while k <= |p|
        invariant 1 <= k <= |p| + 1
        invariant MkdirsFrom(State(), denied, p, k) == MkdirsFrom(old(State()), denied, p, 1)
        decreases |p| + 1 - k
      {
        var q := p[..k];
        if q !in dirs {
          if q in files || q in denied {
            return false;
          }
          dirs := dirs + {q};
        }
        k := k + 1;
      }
      return true;
    }

    /** `process_file`, with the destination action made explicit. */
    method ProcessFile(input: Path, output: Path, date: Option<DateTime>, unknown: Path)
      returns (r: Result<FileAction, SyncError>)
      requires date.Some? ==> ValidDateTime(date.value)
      modifies this
      ensures (State(), r) == ProcessFileSpec(old(State()), denied, input, output, date, unknown)
    {
      var folder := DestFolder(output, date, unknown);
      var ok := CreateDirAll(folder);
      if !ok {
        return Err(CreateDirFailed);
      }
      var name := FileName(input);
      if name.None? {
        return Ok(Skipped);
      }
      var dest := folder + [name.value];
      if dest in files || dest in dirs {
        if input !in files {
          return Err(SourceUnreadable);
        }
        if dest in dirs {
          return Err(DestinationNotFile);
        }
        if |files[input]| != |files[dest]| {
          if dest in denied {
            return Err(CopyFailed);
          }
          files := files[dest := files[input]];
          return Ok(Updated);
        }
        return Ok(Skipped);
      }
      if input !in files || dest in denied {
        return Err(CopyFailed);
      }
      files := files[dest := files[input]];
      return Ok(New);
    }
  }
}
