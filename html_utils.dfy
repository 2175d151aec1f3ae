/**
 * html/utils.rs: the two helpers the gallery builder uses on the organized
 * tree: which files are images, and the day label of an organized file read
 * back from its position under the output root.
 */
module HtmlUtils {
  import opened Wrappers
  import opened Strings
  import opened Paths
  import opened Calendar
  import opened DateUtils
  import opened FsOps

  /** The lower-case extensions the gallery shows as images. */
  const ImageExtensions: set<string> := {"jpg", "jpeg", "png", "gif", "bmp", "webp", "heic", "heif", "tiff"}

  /** `is_image`: the extension, lower-cased (empty when absent), is one of the image extensions. */
  predicate IsImage(p: Path) {
    var ext := match Extension(p) case None => "" case Some(e) => AsciiLower(e);
    ext in ImageExtensions
  }

  /** Every image is a file the organizer processes. */
  lemma ImageIsProcessed(p: Path)
    requires IsImage(p)
    ensures ShouldProcessFile(p, false)
  {
  }

  /** A file `stem.ext` with a dot-free `ext` is an image exactly when its lower-cased `ext` is listed. */
  lemma IsImageJoined(dir: Path, stem: string, ext: string)
    requires stem != "" && forall k :: 0 <= k < |ext| ==> ext[k] != '.'
    requires stem + "." + ext != ".."
    ensures IsImage(dir + [stem + "." + ext]) <==> AsciiLower(ext) in ImageExtensions
  {
    ExtensionOfJoin(dir, stem, ext);
  }

  /** Images are recognised whatever the letter case of their extension: `photo.jpg` ... */
  lemma IsImagePhoto()
    ensures IsImage(["photo" + "." + "jpg"])
  {
    assert AsciiLower("jpg") == "jpg";
    IsImageJoined([], "photo", "jpg");
  }

  /** ... and `photo.JPG`. */
  lemma IsImagePhotoUpperCase()
    ensures IsImage(["photo" + "." + "JPG"])
  {
    assert AsciiLower("JPG") == "jpg";
    IsImageJoined([], "photo", "JPG");
  }

  lemma IsImagePng()
    ensures IsImage(["image" + "." + "png"])
  {
    assert AsciiLower("png") == "png";
    IsImageJoined([], "image", "png");
  }

  lemma IsImageHeic()
    ensures IsImage(["image" + "." + "heic"])
  {
    assert AsciiLower("heic") == "heic";
    IsImageJoined([], "image", "heic");
  }

  /** The three-letter image extensions all start with 'j', 'p', 'g' or 'b'. */
  lemma NotThreeLetterImage(e: string)
    requires |e| == 3 && e[0] != 'j' && e[0] != 'p' && e[0] != 'g' && e[0] != 'b'
    ensures e !in ImageExtensions
  {
  }

  /** Videos and other documents are not images. */
  lemma IsImageRejectsVideo()
    ensures !IsImage(["video" + "." + "mp4"])
  {
    assert AsciiLower("mp4") == "mp4";
    NotThreeLetterImage("mp4");
    IsImageJoined([], "video", "mp4");
  }

  lemma IsImageRejectsText()
    ensures !IsImage(["text" + "." + "txt"])
  {
    assert AsciiLower("txt") == "txt";
    NotThreeLetterImage("txt");
    IsImageJoined([], "text", "txt");
  }

  lemma IsImageRejectsNoExtension(name: string)
    requires name == "no_ext"
    ensures !IsImage([name])
  {
    assert forall k :: 0 <= k < |name| ==> name[k] != '.';
    assert LastDot(name) == None;
  }

  /**
   * `get_date_from_path`: below `root`, the first three components are
   * taken as year, month and day when there are at least four components and
   * each of the three is numeric; the label joins them with '-'.
   */
  function GetDateFromPath(image: Path, root: Path): (r: Option<string>)
    ensures r.Some? <==>
      && StripPrefix(image, root).Some?
      && |image| >= |root| + 4
      && AllDigits(image[|root|]) && AllDigits(image[|root| + 1]) && AllDigits(image[|root| + 2])
    ensures r.Some? ==> r.value == image[|root|] + "-" + image[|root| + 1] + "-" + image[|root| + 2]
  {
    match StripPrefix(image, root)
    case None => None
    case Some(rel) =>
      if |rel| >= 4 && AllDigits(rel[0]) && AllDigits(rel[1]) && AllDigits(rel[2]) then
        Some(rel[0] + "-" + rel[1] + "-" + rel[2])
      else
        None
  }

  /** The label of a calendar date as the organizer lays it out: year, two-digit month, two-digit day. */
  function DayLabel(d: Date): string
    requires 1 <= d.month <= 12 && 1 <= d.day <= 31
  {
    IntToString(d.year) + "-" + Pad2(d.month) + "-" + Pad2(d.day)
  }

  /**
   * Reading back a dated destination: a file the organizer placed under
   * `output` for a date in year 0 or later yields that date's label.
   */
  lemma DateOfDestination(output: Path, t: DateTime, unknown: Path, name: string)
    requires ValidDateTime(t) && t.date.year >= 0
    ensures GetDateFromPath(DestFolder(output, Some(t), unknown) + [name], output) == Some(DayLabel(t.date))
  {
    var p := DestFolder(output, Some(t), unknown) + [name];
    assert p[..|output|] == output;
    var rel := p[|output|..];
    assert rel == [IntToString(t.date.year), Pad2(t.date.month), Pad2(t.date.day), name];
  }

  /** A year before 0 is written with a '-', so such a destination yields no label. */
  lemma NegativeYearHasNoLabel(output: Path, t: DateTime, unknown: Path, name: string)
    requires ValidDateTime(t) && t.date.year < 0
    ensures GetDateFromPath(DestFolder(output, Some(t), unknown) + [name], output) == None
  {
    var p := DestFolder(output, Some(t), unknown) + [name];
    assert p[|output|] == IntToString(t.date.year);
  }

  /**
   * The undated bucket yields no label when it is shallower than three
   * directories (the default single `unknown` folder) or its first
   * component is not numeric.
   */
  lemma UnknownBucketHasNoLabel(output: Path, unknown: Path, name: string)
    requires |unknown| < 3 || !AllDigits(unknown[0])
    ensures GetDateFromPath(DestFolder(output, None, unknown) + [name], output) == None
  {
    var p := DestFolder(output, None, unknown) + [name];
    assert |p| == |output| + |unknown| + 1;
    if |unknown| >= 1 {
      assert p[|output|] == unknown[0];
    }
  }

  /** The label is a digit run, '-', two digits, '-', two digits. */
  lemma DayLabelShape(d: Date)
    requires 1 <= d.month <= 12 && 1 <= d.day <= 31 && d.year >= 0
    ensures var s := DayLabel(d);
      && |s| >= 7
      && s[|s| - 3] == '-' && s[|s| - 6] == '-'
      && s[..|s| - 6] == IntToString(d.year)
      && s[|s| - 5..|s| - 3] == Pad2(d.month)
      && s[|s| - 2..] == Pad2(d.day)
  {
    var y, m, dd := IntToString(d.year), Pad2(d.month), Pad2(d.day);
    var s := DayLabel(d);
    assert s == y + "-" + m + "-" + dd;
    assert s[..|s| - 6] == y;
    assert s[|s| - 5..|s| - 3] == m;
    assert s[|s| - 2..] == dd;
  }

  /** Different days of year 0 or later get different labels, so the gallery never merges two days. */
  lemma DayLabelInjective(d1: Date, d2: Date)
    requires 1 <= d1.month <= 12 && 1 <= d1.day <= 31 && d1.year >= 0
    requires 1 <= d2.month <= 12 && 1 <= d2.day <= 31 && d2.year >= 0
    requires DayLabel(d1) == DayLabel(d2)
    ensures d1 == d2
  {
    DayLabelShape(d1);
    DayLabelShape(d2);
    assert Pad2(d1.month) == Pad2(d2.month) && Pad2(d1.day) == Pad2(d2.day);
    assert NatToDigits(d1.year) == NatToDigits(d2.year);
  }

  /** The cases of the module's own tests, with the output root `/tmp/output`. */
  lemma GetDateFromPathExamples(root: Path)
    requires root == ["/", "tmp", "output"]
    ensures GetDateFromPath(root + ["2023", "05", "20", "img.jpg"], root) == Some("2023-05-20")
    ensures GetDateFromPath(root + ["2023", "05", "20", "extra", "img.jpg"], root) == Some("2023-05-20")
    ensures GetDateFromPath(root + ["2023", "05", "img.jpg"], root) == None
    ensures GetDateFromPath(root + ["unknown", "folder", "img.jpg"], root) == None
    ensures GetDateFromPath(root + ["2023", "May", "20", "img.jpg"], root) == None
    ensures GetDateFromPath(["/", "other", "path", "2023", "05", "20", "img.jpg"], root) == None
  {
    assert AllDigits("2023") && AllDigits("05") && AllDigits("20");
    assert "2023" + "-" + "05" + "-" + "20" == "2023-05-20";
    assert !IsDigit("May"[0]);
    assert !IsDigit("unknown"[0]);
    assert ["/", "other", "path", "2023", "05", "20", "img.jpg"][1] != root[1];
  }
}
