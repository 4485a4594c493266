/**
 * A file-system path as the list of its normal components, as Rust's
 * `std::path::Path` sees it through `components()`.  `/tmp/x/a.rs` is
 * `["tmp", "x", "a.rs"]`.  Root, `.` and `..` components are not modelled.
 */
module Paths {
  import opened Wrappers

  type Path = seq<string>

  /** `Path::starts_with`: `base` is a component-wise prefix of `p`. */
  predicate StartsWith(p: Path, base: Path)
  {
    |base| <= |p| && p[..|base|] == base
  }

  /** `Path::strip_prefix`: what is left of `p` once `base` is removed, if `base` is a prefix. */
  function StripPrefix(p: Path, base: Path): (r: Option<Path>)
    ensures r.Some? <==> StartsWith(p, base)
    ensures r.Some? ==> base + r.value == p
  {
    if StartsWith(p, base) then
      assert base + p[|base|..] == p[..|base|] + p[|base|..] == p;
      Some(p[|base|..])
    else None
  }

  /** `Path::file_name`: the last component, if there is one. */
  function FileName(p: Path): (r: Option<string>)
    ensures r.Some? <==> |p| > 0
    ensures r.Some? ==> p == p[..|p| - 1] + [r.value]
  {
    if |p| == 0 then None else Some(p[|p| - 1])
  }

  /** Index of the last `.` in `s`, if any. */
  function LastDot(s: string): (r: Option<nat>)
    ensures r.Some? ==> r.value < |s| && s[r.value] == '.'
    ensures r.Some? ==> forall k :: r.value < k < |s| ==> s[k] != '.'
    ensures r.None? ==> forall k :: 0 <= k < |s| ==> s[k] != '.'
  {
    if |s| == 0 then None
    else if s[|s| - 1] == '.' then Some(|s| - 1)
    else LastDot(s[..|s| - 1])
  }

  /**
   * `Path::extension`: the text after the last `.` of the file name, unless
   * there is no `.` or the only `.` opens the name (`.bashrc`).
   */
  function Extension(p: Path): (r: Option<string>)
  {
    match FileName(p)
    case None => None
    case Some(name) =>
      if name == ".." then None
      else
        match LastDot(name)
        case None => None
        case Some(i) => if i == 0 then None else Some(name[i + 1..])
  }

  /** A found extension is the dot-free tail of the file name after a non-leading dot. */
  lemma ExtensionIsFinalSuffix(p: Path)
    ensures Extension(p).Some? ==>
      exists stem :: |stem| > 0 && p[|p| - 1] == stem + "." + Extension(p).value
    ensures Extension(p).Some? ==> '.' !in Extension(p).value
  {
    if Extension(p).Some? {
      var name := p[|p| - 1];
      var i := LastDot(name).value;
      assert name == name[..i] + "." + name[i + 1..];
      var ext := Extension(p).value;
      assert forall k :: 0 <= k < |ext| ==> ext[k] == name[i + 1 + k];
    }
  }

  /**
   * Conversely, a file name other than `..` made of a non-empty stem, a dot
   * and a dot-free tail has that tail as its extension.
   */
  lemma ExtensionOfSuffix(p: Path, stem: string, ext: string)
    requires |p| > 0 && p[|p| - 1] == stem + "." + ext && p[|p| - 1] != ".."
    requires |stem| > 0 && '.' !in ext
    ensures Extension(p) == Some(ext)
  {
    var name := p[|p| - 1];
    assert name[|stem|] == '.';
    assert forall k :: |stem| < k < |name| ==> name[k] == ext[k - |stem| - 1];
    assert name[|stem| + 1..] == ext;
  }
}
