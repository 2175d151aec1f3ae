/**
 * metadata.rs: the date of a media file, taken from the first source that
 * yields one: a Takeout JSON sidecar, then the EXIF date tags, then a date
 * written in the file name.
 *
 * The file system and the EXIF decoder are inputs: `sidecars` says what
 * opening and decoding each candidate sidecar path gives, and `exif` is the
 * rendered text of the three EXIF date tags (or `None` when the file could
 * not be opened or holds no EXIF container).
 */
module Metadata {
  import opened Wrappers
  import opened Strings
  import opened Paths
  import opened Calendar
  import opened DateUtils
  import opened Model

  // ---------------------------------------------------------------------------
  // JSON sidecars

  /** What reading a candidate sidecar path gives. */
  datatype SidecarFile =
    | Missing               // the path does not exist
    | Unreadable            // it exists but cannot be opened
    | Malformed             // its text is not JSON
    | Present(json: Json)   // its text parses as this JSON document

  /**
   * The two sidecar paths tried, in order: the full file name with ".json"
   * appended ("IMG.jpg.json"), then the file name with its extension
   * replaced by "json" ("IMG.json"). A path without a file name is tried as is.
   */
  function SidecarCandidates(p: Path): (r: (Path, Path))
    ensures FileName(p).None? ==> r == (p, p)
    ensures FileName(p).Some? ==>
      var dir, name := p[..|p| - 1], p[|p| - 1];
      r == (dir + [name + ".json"], dir + [NameStem(name) + ".json"])
  {
    if FileName(p).Some? then
      var name := p[|p| - 1];
      assert NameStem(name) + "." + "json" == NameStem(name) + ".json";
      (WithFileName(p, name + ".json"), WithExtension(p, "json"))
    else
      (p, WithExtension(p, "json"))
  }

  /** A name without an extension has a single candidate: both are "<name>.json". */
  lemma SidecarCandidatesNoExtension(dir: Path, name: string)
    requires name != ".." && NameExtension(name).None?
    ensures SidecarCandidates(dir + [name]).0 == SidecarCandidates(dir + [name]).1 == dir + [name + ".json"]
  {
    assert (dir + [name])[..|dir|] == dir;
  }

  lemma SidecarCandidatesExample()
    ensures SidecarCandidates(["Takeout", "IMG_1.jpg"]) == (["Takeout", "IMG_1.jpg.json"], ["Takeout", "IMG_1.json"])
  {
    assert LastDot("IMG_1.jpg") == Some(5) by {
      assert "IMG_1.jpg"[..8] == "IMG_1.jp";
      assert "IMG_1.jp"[..7] == "IMG_1.j";
      assert "IMG_1.j"[..6] == "IMG_1.";
    }
    assert "IMG_1.jpg"[..5] == "IMG_1";
    assert NameStem("IMG_1.jpg") == "IMG_1";
    var p: Path := ["Takeout", "IMG_1.jpg"];
    assert p[..1] == ["Takeout"] && p[1] == "IMG_1.jpg";
    assert FileName(p) == Some("IMG_1.jpg");
    var r := SidecarCandidates(p);
    assert r.0 == ["Takeout"] + ["IMG_1.jpg" + ".json"];
    assert r.1 == ["Takeout"] + ["IMG_1" + ".json"];
    assert ["Takeout"] + ["IMG_1.json"] == ["Takeout", "IMG_1.json"];
    assert ["Takeout"] + ["IMG_1.jpg.json"] == ["Takeout", "IMG_1.jpg.json"];
    assert "IMG_1" + ".json" == "IMG_1.json" && "IMG_1.jpg" + ".json" == "IMG_1.jpg.json";
  }

  /**
   * `parse_json_date`: the date of a sidecar. When the record has a
   * `photoTakenTime` it alone decides, even if its timestamp does not parse;
   * `creationTime` is used only when `photoTakenTime` is absent.
   */
  function ParseJsonDate(f: SidecarFile): (r: Option<DateTime>)
    ensures r.Some? ==> f.Present? && DecodeMetadata(f.json).Some?
    ensures r.Some? ==> ValidDateTime(r.value)
  {
    match f
    case Present(j) =>
      (match DecodeMetadata(j)
       case None => None
       case Some(m) =>
         if m.photoTakenTime.Some? then TimestampStringToDate(m.photoTakenTime.value.timestamp)
         else if m.creationTime.Some? then TimestampStringToDate(m.creationTime.value.timestamp)
         else None)
    case _ => None
  }

  /** The sidecar's date is the instant of `photoTakenTime` when present, else of `creationTime`. */
  lemma ParseJsonDateSpec(f: SidecarFile)
    ensures ParseJsonDate(f).Some? ==>
      var m := DecodeMetadata(f.json).value;
      var g := if m.photoTakenTime.Some? then m.photoTakenTime else m.creationTime;
      g.Some? && ParseI64(g.value.timestamp).Some? &&
      InstantSeconds(ParseJsonDate(f).value) == ParseI64(g.value.timestamp).value
    ensures f.Present? && DecodeMetadata(f.json).Some? && DecodeMetadata(f.json).value.photoTakenTime.Some? ==>
      ParseJsonDate(f) == TimestampStringToDate(DecodeMetadata(f.json).value.photoTakenTime.value.timestamp)
    ensures f.Present? && DecodeMetadata(f.json).Some? && DecodeMetadata(f.json).value.photoTakenTime.None? ==>
      ParseJsonDate(f) == match DecodeMetadata(f.json).value.creationTime
                          case Some(c) => TimestampStringToDate(c.timestamp)
                          case None => None
    ensures !f.Present? ==> ParseJsonDate(f).None?
    ensures f.Present? && DecodeMetadata(f.json) == Some(PhotoMetadata(None, None)) ==> ParseJsonDate(f).None?
  {
  }

  /** A present but unusable `photoTakenTime` is not rescued by a valid `creationTime`. */
  lemma TakenTimeDecides(bad: string, good: string)
    requires ParseI64(bad).None?
    ensures ParseJsonDate(Present(EncodeMetadata(PhotoMetadata(Some(GoogleTimestamp(bad)), Some(GoogleTimestamp(good)))))).None?
  {
    DecodeMetadataRoundTrip(PhotoMetadata(Some(GoogleTimestamp(bad)), Some(GoogleTimestamp(good))));
  }

  /** A sidecar written with an instant's epoch seconds in either field yields that instant. */
  lemma ParseJsonDateRoundTrip(t: DateTime, other: Option<GoogleTimestamp>)
    requires ValidDateTime(t) && InI64(InstantSeconds(t))
    ensures var g := GoogleTimestamp(IntToString(InstantSeconds(t)));
      && ParseJsonDate(Present(EncodeMetadataSparse(PhotoMetadata(Some(g), other)))) == Some(t)
      && ParseJsonDate(Present(EncodeMetadataSparse(PhotoMetadata(None, Some(g))))) == Some(t)
  {
    var g := GoogleTimestamp(IntToString(InstantSeconds(t)));
    DecodeMetadataRoundTrip(PhotoMetadata(Some(g), other));
    DecodeMetadataRoundTrip(PhotoMetadata(None, Some(g)));
    TimestampStringRoundTrip(t);
  }

  // ---------------------------------------------------------------------------
  // EXIF

  /** The rendered values of the three EXIF date tags of the primary image, when present. */
  datatype ExifFields = ExifFields(
    dateTimeOriginal: Option<string>,
    dateTimeDigitized: Option<string>,
    dateTime: Option<string>)

  function DigitsAt(s: string, i: nat, n: nat): (r: nat)
    requires i + n <= |s| && AllDigits(s[i..i + n])
  {
    DigitsValue(s[i..i + n])
  }

  /** The canonical layout "YYYY<sep>MM<sep>DD HH:MM:SS", 19 characters long. */
  predicate ExifLayout(s: string, sep: char) {
    && |s| == 19
    && AllDigits(s[0..4]) && s[4] == sep && AllDigits(s[5..7]) && s[7] == sep && AllDigits(s[8..10])
    && s[10] == ' '
    && AllDigits(s[11..13]) && s[13] == ':' && AllDigits(s[14..16]) && s[16] == ':' && AllDigits(s[17..19])
  }

  /**
   * `NaiveDateTime::parse_from_str(s, "%Y<sep>%m<sep>%d %H:%M:%S")` on the
   * canonical zero-padded layout: the fields must form a calendar date and
   * a time of day.
   */
  function ParseExifDateTime(s: string, sep: char): (r: Option<DateTime>)
    ensures r.Some? ==> ExifLayout(s, sep) && ValidDateTime(r.value)
    ensures r.Some? ==> 0 <= r.value.date.year <= 9999
  {
    if ExifLayout(s, sep) then
      var y, m, d := DigitsAt(s, 0, 4), DigitsAt(s, 5, 2), DigitsAt(s, 8, 2);
      var h, mi, sec := DigitsAt(s, 11, 2), DigitsAt(s, 14, 2), DigitsAt(s, 17, 2);
      DigitsValueBound(s[0..4]);
      if ValidDate(y, m, d) && h < 24 && mi < 60 && sec < 60 then
        Some(DateTime(Date(y, m, d), h, mi, sec))
      else
        None
    else
      None
  }

  /** The canonical rendering of an instant in a four-digit year. */
  function FormatExif(t: DateTime, sep: char): (r: string)
    requires ValidDateTime(t) && 0 <= t.date.year <= 9999
    ensures |r| == 19
  {
    FixedDigits(t.date.year, 4) + [sep] + Pad2(t.date.month) + [sep] + Pad2(t.date.day) + " " +
    Pad2(t.hour) + ":" + Pad2(t.minute) + ":" + Pad2(t.second)
  }

  /** The pieces of a canonical rendering, at their fixed offsets. */
  lemma FormatExifParts(t: DateTime, sep: char)
    requires ValidDateTime(t) && 0 <= t.date.year <= 9999
    ensures var s := FormatExif(t, sep);
      && s[0..4] == FixedDigits(t.date.year, 4) && s[4] == sep
      && s[5..7] == Pad2(t.date.month) && s[7] == sep && s[8..10] == Pad2(t.date.day)
      && s[10] == ' ' && s[11..13] == Pad2(t.hour) && s[13] == ':'
      && s[14..16] == Pad2(t.minute) && s[16] == ':' && s[17..19] == Pad2(t.second)
  {
  }

  /** Parsing a canonical rendering gives back the instant. */
  lemma ExifRoundTrip(t: DateTime, sep: char)
    requires ValidDateTime(t) && 0 <= t.date.year <= 9999
    requires !IsDigit(sep)
    ensures ParseExifDateTime(FormatExif(t, sep), sep) == Some(t)
  {
    FormatExifParts(t, sep);
    FixedDigitsValue(t.date.year, 4);
  }

  /** A parsed string is the canonical rendering of what it parses to. */
  lemma ExifRoundTripText(s: string, sep: char)
    requires ParseExifDateTime(s, sep).Some?
    ensures FormatExif(ParseExifDateTime(s, sep).value, sep) == s
  {
    var t := ParseExifDateTime(s, sep).value;
    ParsedExifParts(s, sep);
    FormatExifParts(t, sep);
    FixedDigitsOfValue(s[0..4]);
    FixedDigitsOfValue(s[5..7]);
    FixedDigitsOfValue(s[8..10]);
    FixedDigitsOfValue(s[11..13]);
    FixedDigitsOfValue(s[14..16]);
    FixedDigitsOfValue(s[17..19]);
    SameExifLayout(FormatExif(t, sep), s);
  }

  /** The fields of a parsed instant are the values of the digit groups at their fixed offsets. */
  lemma ParsedExifParts(s: string, sep: char)
    requires ParseExifDateTime(s, sep).Some?
    ensures var t := ParseExifDateTime(s, sep).value;
      && ExifLayout(s, sep)
      && t.date.year == DigitsValue(s[0..4]) && t.date.month == DigitsValue(s[5..7]) && t.date.day == DigitsValue(s[8..10])
      && t.hour == DigitsValue(s[11..13]) && t.minute == DigitsValue(s[14..16]) && t.second == DigitsValue(s[17..19])
  {
  }

  /** Two 19-character strings that agree on every group and separator of the layout are equal. */
  lemma SameExifLayout(r: string, s: string)
    requires |r| == 19 && |s| == 19
    requires r[0..4] == s[0..4] && r[4] == s[4] && r[5..7] == s[5..7] && r[7] == s[7] && r[8..10] == s[8..10]
    requires r[10] == s[10] && r[11..13] == s[11..13] && r[13] == s[13] && r[14..16] == s[14..16]
    requires r[16] == s[16] && r[17..19] == s[17..19]
    ensures r == s
  {
    forall k | 0 <= k < 19
      ensures r[k] == s[k]
    {
      if k < 4 { assert r[k] == r[0..4][k]; assert s[k] == s[0..4][k]; }
      else if 5 <= k < 7 { assert r[k] == r[5..7][k - 5]; assert s[k] == s[5..7][k - 5]; }
      else if 8 <= k < 10 { assert r[k] == r[8..10][k - 8]; assert s[k] == s[8..10][k - 8]; }
      else if 11 <= k < 13 { assert r[k] == r[11..13][k - 11]; assert s[k] == s[11..13][k - 11]; }
      else if 14 <= k < 16 { assert r[k] == r[14..16][k - 14]; assert s[k] == s[14..16][k - 14]; }
      else if 17 <= k { assert r[k] == r[17..19][k - 17]; assert s[k] == s[17..19][k - 17]; }
    }
  }

  /** The two accepted layouts never both match, so their order does not matter. */
  lemma ExifLayoutsDisjoint(s: string)
    ensures ParseExifDateTime(s, ':').Some? ==> ParseExifDateTime(s, '-').None?
  {
  }

  /** The first tag present, in the order DateTimeOriginal, DateTimeDigitized, DateTime. */
  function DateTag(e: ExifFields): Option<string> {
    e.dateTimeOriginal.OrElse(e.dateTimeDigitized).OrElse(e.dateTime)
  }

  /**
   * `get_exif_date`: the first tag present, trimmed, read in the layout
   * with ':' date separators and then in the one with '-'.
   */
  function GetExifDate(exif: Option<ExifFields>): (r: Option<DateTime>)
    ensures r.Some? ==> exif.Some? && DateTag(exif.value).Some?
    ensures r.Some? ==> ValidDateTime(r.value)
  {
    match exif
    case None => None
    case Some(e) =>
      match DateTag(e)
      case None => None
      case Some(v) =>
        var clean := Trim(v);
        ParseExifDateTime(clean, ':').OrElse(ParseExifDateTime(clean, '-'))
  }

  /**
   * The first tag present decides alone: a later tag is not consulted even
   * when the first does not parse. DateTimeOriginal outranks
   * DateTimeDigitized, which outranks DateTime.
   */
  lemma ExifFirstTagDecides(e: ExifFields, v: string)
    requires DateTag(e) == Some(v)
    ensures GetExifDate(Some(e)) == GetExifDate(Some(ExifFields(Some(v), None, None)))
    ensures e.dateTimeOriginal.Some? ==> v == e.dateTimeOriginal.value
    ensures e.dateTimeOriginal.None? && e.dateTimeDigitized.Some? ==> v == e.dateTimeDigitized.value
    ensures e.dateTimeOriginal.None? && e.dateTimeDigitized.None? ==> e.dateTime == Some(v)
  {
  }

  /** An unparsable DateTimeDigitized is not rescued by a DateTime that parses. */
  lemma DigitizedNotRescued(digitized: string, plain: string)
    requires GetExifDate(Some(ExifFields(Some(digitized), None, None))).None?
    ensures GetExifDate(Some(ExifFields(None, Some(digitized), Some(plain)))).None?
  {
    ExifFirstTagDecides(ExifFields(None, Some(digitized), Some(plain)), digitized);
  }

  /** Surrounding whitespace is ignored, and both renderings of an instant are read back. */
  lemma ExifPaddedRoundTrip(t: DateTime, pre: string, post: string)
    requires ValidDateTime(t) && 0 <= t.date.year <= 9999
    requires AllSpace(pre) && AllSpace(post)
    ensures GetExifDate(Some(ExifFields(Some(pre + FormatExif(t, ':') + post), None, None))) == Some(t)
    ensures GetExifDate(Some(ExifFields(None, None, Some(pre + FormatExif(t, '-') + post)))) == Some(t)
  {
    FormatExifParts(t, ':');
    FormatExifParts(t, '-');
    TrimPadded(pre, FormatExif(t, ':'), post);
    TrimPadded(pre, FormatExif(t, '-'), post);
    ExifRoundTrip(t, ':');
    ExifRoundTrip(t, '-');
    ExifLayoutsDisjoint(FormatExif(t, '-'));
  }

  // ---------------------------------------------------------------------------
  // Dates in file names

  /** The two file-name patterns: `(\d{4})[-_]?(\d{2})[-_]?(\d{2})` and `(\d{2})(\d{2})(\d{4})`. */
  datatype Pattern = StdPattern | DmyPattern

  /** The year, month and day capture groups of a match. */
  datatype Captures = Captures(year: string, month: string, day: string)

  predicate IsSep(c: char) {
    c == '-' || c == '_'
  }

  predicate DigitsIn(s: string, i: int, n: nat) {
    0 <= i && i + n <= |s| && AllDigits(s[i..i + n])
  }

  /**
   * The standard pattern's language at position `i`, with the month group at
   * `j` and the day group at `k`: four digits, an optional '-' or '_', two
   * digits, an optional '-' or '_', two digits.
   */
  predicate StdAt(s: string, i: int, j: int, k: int) {
    && DigitsIn(s, i, 4)
    && (j == i + 4 || (j == i + 5 && i + 4 < |s| && IsSep(s[i + 4])))
    && DigitsIn(s, j, 2)
    && (k == j + 2 || (k == j + 3 && 0 <= j + 2 < |s| && IsSep(s[j + 2])))
    && DigitsIn(s, k, 2)
  }

  /** The match of `pat` starting at `i`, if any. An optional separator is taken when present. */
  function MatchAt(pat: Pattern, s: string, i: nat): Option<Captures> {
    match pat
    case StdPattern =>
      if DigitsIn(s, i, 4) then
        var j := if i + 4 < |s| && IsSep(s[i + 4]) then i + 5 else i + 4;
        if DigitsIn(s, j, 2) then
          var k := if j + 2 < |s| && IsSep(s[j + 2]) then j + 3 else j + 2;
          if DigitsIn(s, k, 2) then Some(Captures(s[i..i + 4], s[j..j + 2], s[k..k + 2])) else None
        else None
      else None
    case DmyPattern =>
      if DigitsIn(s, i, 8) then Some(Captures(s[i + 4..i + 8], s[i + 2..i + 4], s[i..i + 2])) else None
  }

  /**
   * The standard pattern matches at `i` exactly when its language has a
   * member there, and every such member has the captures `MatchAt` reports:
   * separators are not digits, so an optional separator cannot be skipped.
   */
  lemma StdMatchSpec(s: string, i: nat)
    ensures MatchAt(StdPattern, s, i).Some? <==> exists j, k :: StdAt(s, i, j, k)
    ensures forall j, k :: StdAt(s, i, j, k) ==>
      MatchAt(StdPattern, s, i) == Some(Captures(s[i..i + 4], s[j..j + 2], s[k..k + 2]))
  {
    forall j, k | StdAt(s, i, j, k)
      ensures MatchAt(StdPattern, s, i) == Some(Captures(s[i..i + 4], s[j..j + 2], s[k..k + 2]))
    {
      if j == i + 4 && i + 4 < |s| {
        assert s[j..j + 2][0] == s[i + 4];
      }
      if k == j + 2 && j + 2 < |s| {
        assert s[k..k + 2][0] == s[j + 2];
      }
    }
    if MatchAt(StdPattern, s, i).Some? {
      var j := if i + 4 < |s| && IsSep(s[i + 4]) then i + 5 else i + 4;
      var k := if j + 2 < |s| && IsSep(s[j + 2]) then j + 3 else j + 2;
      assert StdAt(s, i, j, k);
    }
  }

  /** The dmy pattern matches at `i` exactly when eight digits start there. */
  lemma DmyMatchSpec(s: string, i: nat)
    ensures MatchAt(DmyPattern, s, i).Some? <==> DigitsIn(s, i, 8)
  {
  }

  /** Every capture group is made of ASCII digits: four for the year, two for month and day. */
  lemma CapturesAreDigits(pat: Pattern, s: string, i: nat)
    requires MatchAt(pat, s, i).Some?
    ensures var c := MatchAt(pat, s, i).value;
      AllDigits(c.year) && |c.year| == 4 && AllDigits(c.month) && |c.month| == 2 && AllDigits(c.day) && |c.day| == 2
  {
    if pat.DmyPattern? {
      var c := MatchAt(pat, s, i).value;
      assert c.year == s[i..i + 8][4..8];
      assert c.month == s[i..i + 8][2..4];
      assert c.day == s[i..i + 8][0..2];
    }
  }

  /** The leftmost match of `pat` starting at or after `from` (what `Regex::captures` reports). */
  function Leftmost(pat: Pattern, s: string, from: nat): (r: Option<(nat, Captures)>)
    ensures r.Some? ==> from <= r.value.0 <= |s| && MatchAt(pat, s, r.value.0) == Some(r.value.1)
    ensures r.Some? ==> forall i :: from <= i < r.value.0 ==> MatchAt(pat, s, i).None?
    ensures r.None? ==> forall i :: from <= i <= |s| ==> MatchAt(pat, s, i).None?
    decreases |s| - from
  {
    if from > |s| then None
    else match MatchAt(pat, s, from)
      case Some(c) => Some((from, c))
      case None => Leftmost(pat, s, from + 1)
  }

  /** A date from captured groups: the year must lie strictly between 1990 and 2030. */
  function CapturesDate(c: Captures): (r: Option<DateTime>)
    requires AllDigits(c.year) && AllDigits(c.month) && AllDigits(c.day)
    ensures r.Some? <==> 1990 < DigitsValue(c.year) < 2030 && ValidDate(DigitsValue(c.year), DigitsValue(c.month), DigitsValue(c.day))
    ensures r.Some? ==> r.value == DateTime(Date(DigitsValue(c.year), DigitsValue(c.month), DigitsValue(c.day)), 12, 0, 0)
  {
    var y := DigitsValue(c.year);
    if 1990 < y < 2030 then NaiveToUtc(y, DigitsValue(c.month), DigitsValue(c.day)) else None
  }

  /** The date read from the leftmost match of `pat` in `name`, if that match holds one. */
  function PatternDate(pat: Pattern, name: string): Option<DateTime> {
    match Leftmost(pat, name, 0)
    case None => None
    case Some((i, c)) =>
      CapturesAreDigits(pat, name, i);
      CapturesDate(c)
  }

  /**
   * `parse_filename_date`: the date in the leftmost match of the standard
   * pattern, else the date in the leftmost match of the dmy pattern. Only
   * the leftmost match of each pattern is tried.
   */
  function ParseFilenameDate(p: Path): (r: Option<DateTime>)
    ensures r.Some? ==> FileName(p).Some?
    ensures r.Some? ==> ValidDateTime(r.value) && 1990 < r.value.date.year < 2030
    ensures r.Some? ==> r.value.hour == 12 && r.value.minute == 0 && r.value.second == 0
  {
    match FileName(p)
    case None => None
    case Some(name) => PatternDate(StdPattern, name).OrElse(PatternDate(DmyPattern, name))
  }

  /** The fallback to the dmy pattern happens exactly when the standard pattern yields no date. */
  lemma ParseFilenameDateSpec(dir: Path, name: string)
    requires name != ".."
    ensures PatternDate(StdPattern, name).Some? ==> ParseFilenameDate(dir + [name]) == PatternDate(StdPattern, name)
    ensures PatternDate(StdPattern, name).None? ==> ParseFilenameDate(dir + [name]) == PatternDate(DmyPattern, name)
  {
  }

  lemma LeftmostAt(pat: Pattern, s: string, i: nat)
    requires i <= |s| && MatchAt(pat, s, i).Some?
    requires forall k :: 0 <= k < i ==> MatchAt(pat, s, k).None?
    ensures Leftmost(pat, s, 0) == Some((i, MatchAt(pat, s, i).value))
  {
    var r := Leftmost(pat, s, 0);
    assert r.Some?;
  }

  lemma Digits2Value(s: string)
    requires |s| == 2 && AllDigits(s)
    ensures DigitsValue(s) == 10 * DigitValue(s[0]) + DigitValue(s[1])
  {
    var h := s[..1];
    assert h[..0] == [] && h[0] == s[0];
    assert DigitsValue(h) == DigitValue(s[0]);
  }

  lemma Digits4Value(s: string)
    requires |s| == 4 && AllDigits(s)
    ensures DigitsValue(s) == 1000 * DigitValue(s[0]) + 100 * DigitValue(s[1]) + 10 * DigitValue(s[2]) + DigitValue(s[3])
  {
    Digits2Value(s[..2]);
    assert s[..3][..2] == s[..2];
  }

  /** The date a pattern yields when its leftmost match is at `i` with the given groups. */
  lemma PatternDateAt(pat: Pattern, s: string, i: nat, c: Captures)
    requires i <= |s| && MatchAt(pat, s, i) == Some(c)
    requires forall k :: 0 <= k < i ==> MatchAt(pat, s, k).None?
    ensures AllDigits(c.year) && AllDigits(c.month) && AllDigits(c.day)
    ensures PatternDate(pat, s) == CapturesDate(c)
  {
    LeftmostAt(pat, s, i);
    CapturesAreDigits(pat, s, i);
  }

  /** No match can start at a non-digit. */
  lemma NoMatchAtNonDigits(pat: Pattern, s: string, i: nat)
    requires i <= |s| && forall k :: 0 <= k < i ==> !IsDigit(s[k])
    ensures forall k :: 0 <= k < i ==> MatchAt(pat, s, k).None?
  {
    forall k | 0 <= k < i
      ensures MatchAt(pat, s, k).None?
    {
      if k + 4 <= |s| { assert s[k..k + 4][0] == s[k]; }
      if k + 8 <= |s| { assert s[k..k + 8][0] == s[k]; }
    }
  }

  /** The date a pattern yields from groups of known value. */
  lemma CapturesDateValue(c: Captures, y: nat, m: nat, d: nat)
    requires |c.year| == 4 && |c.month| == 2 && |c.day| == 2
    requires AllDigits(c.year) && AllDigits(c.month) && AllDigits(c.day)
    requires 1000 * DigitValue(c.year[0]) + 100 * DigitValue(c.year[1]) + 10 * DigitValue(c.year[2]) + DigitValue(c.year[3]) == y
    requires 10 * DigitValue(c.month[0]) + DigitValue(c.month[1]) == m
    requires 10 * DigitValue(c.day[0]) + DigitValue(c.day[1]) == d
    ensures CapturesDate(c) == if 1990 < y < 2030 && ValidDate(y, m, d) then Some(DateTime(Date(y, m, d), 12, 0, 0)) else None
  {
    Digits4Value(c.year);
    Digits2Value(c.month);
    Digits2Value(c.day);
  }

  /** No match starts inside a prefix free of digits. */
  lemma NoMatchInPrefix(pat: Pattern, pre: string, rest: string)
    requires forall k :: 0 <= k < |pre| ==> !IsDigit(pre[k])
    ensures forall k :: 0 <= k < |pre| ==> MatchAt(pat, pre + rest, k).None?
  {
    var s := pre + rest;
    assert forall k :: 0 <= k < |pre| ==> s[k] == pre[k];
    NoMatchAtNonDigits(pat, s, |pre|);
  }

  /** `IMG_20230520_120000.jpg`, as its prefix, date groups and suffix: the standard pattern matches at 4. */
  lemma CompactNameMatch(pre: string, y: string, m: string, d: string, post: string)
    requires pre == "IMG_" && y == "2023" && m == "05" && d == "20" && post == "_120000.jpg"
    ensures 4 <= |pre + y + m + d + post|
    ensures MatchAt(StdPattern, pre + y + m + d + post, 4) == Some(Captures(y, m, d))
    ensures forall k :: 0 <= k < 4 ==> MatchAt(StdPattern, pre + y + m + d + post, k).None?
  {
    var name := pre + y + m + d + post;
    assert name[4..8] == y && name[8..10] == m && name[10..12] == d;
    assert !IsDigit(pre[0]) && !IsDigit(pre[1]) && !IsDigit(pre[2]) && !IsDigit(pre[3]);
    NoMatchInPrefix(StdPattern, pre, y + m + d + post);
    assert pre + (y + m + d + post) == name;
  }

  /** `IMG_20230520_120000.jpg` gives 2023-05-20. */
  lemma FilenameDateStdCompact(pre: string, y: string, m: string, d: string, post: string)
    requires pre == "IMG_" && y == "2023" && m == "05" && d == "20" && post == "_120000.jpg"
    ensures ParseFilenameDate([pre + y + m + d + post]) == Some(DateTime(Date(2023, 5, 20), 12, 0, 0))
  {
    var name := pre + y + m + d + post;
    var c := Captures(y, m, d);
    CompactNameMatch(pre, y, m, d, post);
    PatternDateAt(StdPattern, name, 4, c);
    CapturesDateValue(c, 2023, 5, 20);
  }

  /** `2022-12-01.jpg`: the standard pattern matches at 0, taking both separators. */
  lemma DashedNameMatch(y: string, m: string, d: string, post: string)
    requires y == "2022" && m == "12" && d == "01" && post == ".jpg"
    ensures MatchAt(StdPattern, y + "-" + m + "-" + d + post, 0) == Some(Captures(y, m, d))
  {
    var name := y + "-" + m + "-" + d + post;
    assert name[0..4] == y && name[5..7] == m && name[8..10] == d;
    assert name[4] == '-' && name[7] == '-';
  }

  /** `2022-12-01.jpg` gives 2022-12-01. */
  lemma FilenameDateStdDashed(y: string, m: string, d: string, post: string)
    requires y == "2022" && m == "12" && d == "01" && post == ".jpg"
    ensures ParseFilenameDate([y + "-" + m + "-" + d + post]) == Some(DateTime(Date(2022, 12, 1), 12, 0, 0))
  {
    var name := y + "-" + m + "-" + d + post;
    var c := Captures(y, m, d);
    DashedNameMatch(y, m, d, post);
    PatternDateAt(StdPattern, name, 0, c);
    CapturesDateValue(c, 2022, 12, 1);
  }

  /**
   * `IMG-25102023-WA0001.jpg`, as its prefix, day, month, the two halves of
   * the year and its suffix: at position 4 the standard pattern reads year
   * 2510, month 20, day 23, and the dmy pattern reads 25-10-2023.
   */
  lemma WhatsAppNameMatches(pre: string, d: string, m: string, c: string, yy: string, post: string)
    requires pre == "IMG-" && d == "25" && m == "10" && c == "20" && yy == "23" && post == "-WA0001.jpg"
    ensures var name := pre + d + m + c + yy + post;
      && 4 <= |name|
      && MatchAt(StdPattern, name, 4) == Some(Captures(d + m, c, yy))
      && MatchAt(DmyPattern, name, 4) == Some(Captures(c + yy, m, d))
      && forall k :: 0 <= k < 4 ==> MatchAt(StdPattern, name, k).None? && MatchAt(DmyPattern, name, k).None?
  {
    WhatsAppStdAt(pre, d, m, c, yy, post);
    WhatsAppDmyAt(pre, d, m, c, yy, post);
    WhatsAppPrefix(pre, d + m + c + yy + post);
    assert pre + (d + m + c + yy + post) == pre + d + m + c + yy + post;
  }

  lemma WhatsAppPrefix(pre: string, rest: string)
    requires pre == "IMG-"
    ensures forall k :: 0 <= k < 4 ==> MatchAt(StdPattern, pre + rest, k).None? && MatchAt(DmyPattern, pre + rest, k).None?
  {
    assert !IsDigit(pre[0]) && !IsDigit(pre[1]) && !IsDigit(pre[2]) && !IsDigit(pre[3]);
    NoMatchInPrefix(StdPattern, pre, rest);
    NoMatchInPrefix(DmyPattern, pre, rest);
  }

  lemma WhatsAppStdAt(pre: string, d: string, m: string, c: string, yy: string, post: string)
    requires pre == "IMG-" && d == "25" && m == "10" && c == "20" && yy == "23" && post == "-WA0001.jpg"
    ensures MatchAt(StdPattern, pre + d + m + c + yy + post, 4) == Some(Captures(d + m, c, yy))
  {
    var name := pre + d + m + c + yy + post;
    assert name[4..8] == d + m && name[8..10] == c && name[10..12] == yy;
  }

  lemma WhatsAppDmyAt(pre: string, d: string, m: string, c: string, yy: string, post: string)
    requires pre == "IMG-" && d == "25" && m == "10" && c == "20" && yy == "23" && post == "-WA0001.jpg"
    ensures MatchAt(DmyPattern, pre + d + m + c + yy + post, 4) == Some(Captures(c + yy, m, d))
  {
    var name := pre + d + m + c + yy + post;
    var w := name[4..12];
    assert w == d + m + c + yy;
    assert name[8..12] == w[4..8] == c + yy;
    assert name[6..8] == w[2..4] == m;
    assert name[4..6] == w[0..2] == d;
  }

  /** The standard pattern's leftmost match reads 2510-20-23 here, so the dmy pattern decides: 2023-10-25. */
  lemma FilenameDateDmy(pre: string, d: string, m: string, c: string, yy: string, post: string)
    requires pre == "IMG-" && d == "25" && m == "10" && c == "20" && yy == "23" && post == "-WA0001.jpg"
    ensures ParseFilenameDate([pre + d + m + c + yy + post]) == Some(DateTime(Date(2023, 10, 25), 12, 0, 0))
  {
    var name := pre + d + m + c + yy + post;
    var std, dmy := Captures(d + m, c, yy), Captures(c + yy, m, d);
    WhatsAppNameMatches(pre, d, m, c, yy, post);
    PatternDateAt(StdPattern, name, 4, std);
    PatternDateAt(DmyPattern, name, 4, dmy);
    assert (d + m)[0] == '2' && (d + m)[1] == '5' && (d + m)[2] == '1' && (d + m)[3] == '0';
    assert (c + yy)[0] == '2' && (c + yy)[1] == '0' && (c + yy)[2] == '2' && (c + yy)[3] == '3';
    CapturesDateValue(std, 2510, 20, 23);
    CapturesDateValue(dmy, 2023, 10, 25);
  }

  /** `random_image.jpg`, a name without any digit, has no date. */
  lemma FilenameDateNone(a: string, b: string)
    requires a == "random_" && b == "image.jpg"
    ensures ParseFilenameDate([a + b]) == None
  {
    assert forall k :: 0 <= k < |a| ==> !IsDigit(a[k]);
    assert forall k :: 0 <= k < |b| ==> !IsDigit(b[k]);
    var name := a + b;
    assert forall k :: 0 <= k < |name| ==> name[k] == if k < |a| then a[k] else b[k - |a|];
    NoMatchAtNonDigits(StdPattern, name, |name|);
    NoMatchAtNonDigits(DmyPattern, name, |name|);
  }

  // ---------------------------------------------------------------------------
  // The cascade

  /**
   * `determine_date`: the first sidecar's date, else the second sidecar's,
   * else the EXIF date, else the file-name date.
   */
  function DetermineDate(p: Path, sidecars: Path -> SidecarFile, exif: Option<ExifFields>): (r: Option<DateTime>)
    ensures r.Some? ==> ValidDateTime(r.value)
  {
    var (extra, replaced) := SidecarCandidates(p);
    ParseJsonDate(sidecars(extra))
      .OrElse(ParseJsonDate(sidecars(replaced)))
      .OrElse(GetExifDate(exif))
      .OrElse(ParseFilenameDate(p))
  }

  /** Precedence of the four sources: each is consulted only when all earlier ones give no date. */
  lemma DetermineDatePrecedence(p: Path, sidecars: Path -> SidecarFile, exif: Option<ExifFields>)
    ensures var (c1, c2) := SidecarCandidates(p);
      var j1, j2 := ParseJsonDate(sidecars(c1)), ParseJsonDate(sidecars(c2));
      var e, n := GetExifDate(exif), ParseFilenameDate(p);
      && (j1.Some? ==> DetermineDate(p, sidecars, exif) == j1)
      && (j1.None? && j2.Some? ==> DetermineDate(p, sidecars, exif) == j2)
      && (j1.None? && j2.None? && e.Some? ==> DetermineDate(p, sidecars, exif) == e)
      && (j1.None? && j2.None? && e.None? ==> DetermineDate(p, sidecars, exif) == n)
  {
  }

  /** A usable sidecar makes the EXIF data irrelevant. */
  lemma SidecarOverridesExif(p: Path, sidecars: Path -> SidecarFile, e1: Option<ExifFields>, e2: Option<ExifFields>)
    requires ParseJsonDate(sidecars(SidecarCandidates(p).0)).Some? || ParseJsonDate(sidecars(SidecarCandidates(p).1)).Some?
    ensures DetermineDate(p, sidecars, e1) == DetermineDate(p, sidecars, e2)
  {
  }

  /** Only what the two candidate paths hold matters; every other path in the file system is ignored. */
  lemma DetermineDateReadsOnlyCandidates(p: Path, s1: Path -> SidecarFile, s2: Path -> SidecarFile, exif: Option<ExifFields>)
    requires s1(SidecarCandidates(p).0) == s2(SidecarCandidates(p).0)
    requires s1(SidecarCandidates(p).1) == s2(SidecarCandidates(p).1)
    ensures DetermineDate(p, s1, exif) == DetermineDate(p, s2, exif)
  {
  }

  /** There is no date exactly when none of the four sources gives one. */
  lemma DetermineDateNone(p: Path, sidecars: Path -> SidecarFile, exif: Option<ExifFields>)
    ensures DetermineDate(p, sidecars, exif).None? <==>
      && ParseJsonDate(sidecars(SidecarCandidates(p).0)).None?
      && ParseJsonDate(sidecars(SidecarCandidates(p).1)).None?
      && GetExifDate(exif).None?
      && ParseFilenameDate(p).None?
  {
  }
}
