/**
 * The part of Rust's `std::path` that the organizer relies on, over paths
 * modelled as sequences of components (`"a/b/c.jpg"` is `["a", "b", "c.jpg"]`).
 */
module Paths {
  import opened Wrappers

  type Path = seq<string>

  /** `Path::file_name`: the last component, absent for an empty path or one ending in "..". */
  function FileName(p: Path): (r: Option<string>)
    ensures r.Some? <==> |p| > 0 && p[|p| - 1] != ".."
    ensures r.Some? ==> r.value == p[|p| - 1]
  {
    if |p| == 0 || p[|p| - 1] == ".." then None else Some(p[|p| - 1])
  }

  /** Index of the last '.' of a name. */
  function LastDot(name: string): (r: Option<nat>)
    ensures r.Some? ==> r.value < |name| && name[r.value] == '.'
    ensures r.Some? ==> forall k :: r.value < k < |name| ==> name[k] != '.'
    ensures r.None? ==> forall k :: 0 <= k < |name| ==> name[k] != '.'
  {
    if |name| == 0 then None
    else if name[|name| - 1] == '.' then Some(|name| - 1)
    else LastDot(name[..|name| - 1])
  }

  /**
   * The extension of a file name, as Rust's `rsplit_file_at_dot` splits it:
   * the text after the last dot, unless there is no dot or the only dot
   * leads the name (".hidden").
   */
  function NameExtension(name: string): Option<string> {
    match LastDot(name)
    case None => None
    case Some(i) => if i == 0 then None else Some(name[i + 1..])
  }

  /** The stem of a file name: everything before the extension's dot, or the whole name. */
  function NameStem(name: string): string {
    match LastDot(name)
    case None => name
    case Some(i) => if i == 0 then name else name[..i]
  }

  /**
   * A name has an extension exactly when some dot after its first character
   * exists, and the extension is the dot-free text after the last such dot.
   */
  lemma NameExtensionSpec(name: string)
    ensures NameExtension(name).None? <==> forall k :: 1 <= k < |name| ==> name[k] != '.'
    ensures NameExtension(name).Some? ==>
      exists i :: 1 <= i < |name| && name[i] == '.' && NameExtension(name).value == name[i + 1..]
    ensures NameExtension(name).Some? ==> forall k :: 0 <= k < |NameExtension(name).value| ==> NameExtension(name).value[k] != '.'
    ensures NameExtension(name).Some? ==> name == NameStem(name) + "." + NameExtension(name).value
  {
    match LastDot(name)
    case None =>
    case Some(i) =>
      if i != 0 {
        var e := name[i + 1..];
        assert forall k :: 0 <= k < |e| ==> e[k] == name[i + 1 + k];
        assert name == name[..i] + "." + e;
      }
  }

  /** `Path::extension`. */
  function Extension(p: Path): Option<string> {
    match FileName(p)
    case None => None
    case Some(name) => NameExtension(name)
  }

  /** The extension of `stem.ext`, for a non-empty stem and a dot-free `ext`, is `ext`. */
  lemma ExtensionOfJoin(dir: Path, stem: string, ext: string)
    requires stem != "" && forall k :: 0 <= k < |ext| ==> ext[k] != '.'
    requires stem + "." + ext != ".."
    ensures Extension(dir + [stem + "." + ext]) == Some(ext)
  {
    var name := stem + "." + ext;
    assert FileName(dir + [name]) == Some(name);
    LastDotOfJoin(stem, ext);
    assert name[|stem| + 1..] == ext;
  }

  /** The last dot of `stem.ext`, for a dot-free `ext`, is the one just after the stem. */
  lemma {:induction false} LastDotOfJoin(stem: string, ext: string)
    requires forall k :: 0 <= k < |ext| ==> ext[k] != '.'
    ensures LastDot(stem + "." + ext) == Some(|stem|)
  {
    var name := stem + "." + ext;
    if ext == "" {
      assert name[|name| - 1] == '.';
    } else {
      var init := ext[..|ext| - 1];
      assert name[|name| - 1] == ext[|ext| - 1];
      assert name[..|name| - 1] == stem + "." + init;
      LastDotOfJoin(stem, init);
    }
  }

  /** A file name has a non-empty stem. */
  lemma NameStemNonEmpty(name: string)
    requires name != ""
    ensures NameStem(name) != ""
  {
  }

  /** `PathBuf::set_file_name`: replaces the last component, or appends when there is no file name. */
  function WithFileName(p: Path, name: string): (r: Path)
    ensures FileName(p).Some? ==> r == p[..|p| - 1] + [name]
    ensures FileName(p).None? ==> r == p + [name]
  {
    if FileName(p).Some? then p[..|p| - 1] + [name] else p + [name]
  }

  /**
   * `set_file_name` makes `name` the file name and keeps the parent: the
   * components before it are those of `p` without its file name.
   */
  lemma WithFileNameSpec(p: Path, name: string)
    requires name != ".."
    ensures FileName(WithFileName(p, name)) == Some(name)
    ensures var parent := if FileName(p).Some? then p[..|p| - 1] else p;
      WithFileName(p, name)[..|WithFileName(p, name)| - 1] == parent
  {
  }

  /**
   * `Path::with_extension(ext)` for a non-empty `ext`: the stem followed by
   * "." and `ext`; a path without a file name is returned unchanged.
   */
  function WithExtension(p: Path, ext: string): (r: Path)
    requires ext != ""
    ensures FileName(p).None? ==> r == p
    ensures FileName(p).Some? ==> r == p[..|p| - 1] + [NameStem(p[|p| - 1]) + "." + ext]
  {
    match FileName(p)
    case None => p
    case Some(name) => p[..|p| - 1] + [NameStem(name) + "." + ext]
  }

  /**
   * `with_extension` with a non-empty, dot-free `ext` on a path with a file
   * name (never empty in a Rust path): the new extension is `ext`, the stem
   * is kept and so is the directory.
   */
  lemma WithExtensionSpec(p: Path, ext: string)
    requires ext != "" && forall k :: 0 <= k < |ext| ==> ext[k] != '.'
    requires FileName(p).Some? && FileName(p).value != ""
    ensures Extension(WithExtension(p, ext)) == Some(ext)
    ensures FileName(WithExtension(p, ext)).Some?
    ensures NameStem(FileName(WithExtension(p, ext)).value) == NameStem(FileName(p).value)
    ensures |WithExtension(p, ext)| == |p| && WithExtension(p, ext)[..|p| - 1] == p[..|p| - 1]
  {
    var dir := p[..|p| - 1];
    var stem := NameStem(p[|p| - 1]);
    NameStemNonEmpty(p[|p| - 1]);
    assert (stem + "." + ext)[|stem + "." + ext| - 1] != '.';
    ExtensionOfJoin(dir, stem, ext);
    LastDotOfJoin(stem, ext);
    assert (stem + "." + ext)[..|stem|] == stem;
  }

  /** `Path::strip_prefix`: the remaining components when `root` is a component-wise prefix. */
  function StripPrefix(p: Path, root: Path): (r: Option<Path>)
    ensures r.Some? <==> |root| <= |p| && p[..|root|] == root
    ensures r.Some? ==> root + r.value == p
  {
    if |root| <= |p| && p[..|root|] == root then Some(p[|root|..]) else None
  }
}
