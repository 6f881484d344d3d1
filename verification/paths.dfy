/** The few `std::path` behaviours the system depends on: `PathBuf::join`,
    `Path::file_name`, `Path::extension`, and the default archive name the
    pack commands derive from their input directory. Paths are `/`-separated
    strings. */
module Paths {
  import opened Wrappers
  import opened Text

  /** The `~` expansion shared by template targets and log directories: a
      path starting with `~` has every `~` in it (not only the first)
      replaced by the home directory, and None when home is unknown; any
      other path is kept. */
  function ExpandHome(path: string, home: Option<string>): (r: Option<string>)
    ensures !StartsWith(path, "~") ==> r == Some(path)
    ensures StartsWith(path, "~") ==> (r.Some? <==> home.Some?)
    ensures StartsWith(path, "~") && home.Some? ==> r == Some(SubstChar(path, '~', home.value))
  {
    if StartsWith(path, "~") then
      match home
      case None => None
      case Some(h) =>
        ReplaceCharIsSubst(path, '~', h);
        Some(Replace(path, "~", h))
    else Some(path)
  }

  /** `PathBuf::join`: an absolute `rest` replaces the base; otherwise a
      separator is inserted unless the base is empty or already ends in one. */
  function Join(base: string, rest: string): (r: string)
    ensures StartsWith(rest, "/") ==> r == rest
    ensures !StartsWith(rest, "/") ==> EndsWith(r, rest) && StartsWith(r, base)
    ensures !StartsWith(rest, "/") ==> |r| <= |base| + 1 + |rest|
  {
    if StartsWith(rest, "/") then rest
    else if base == [] || base[|base| - 1] == '/' then base + rest
    else base + "/" + rest
  }

  /** The text after the last `/` (all of `p` when it has none). */
  function LastComponent(p: string): (r: string)
    ensures '/' !in r && EndsWith(p, r)
    ensures |r| < |p| ==> p[|p| - |r| - 1] == '/'
    ensures p != [] && p[|p| - 1] != '/' ==> r != []
    decreases |p|
  {
    if p == [] || p[|p| - 1] == '/' then []
    else
      var r := LastComponent(p[..|p| - 1]) + [p[|p| - 1]];
      assert p[..|p| - 1][|p| - |r|..] + [p[|p| - 1]] == p[|p| - |r|..];
      r
  }

  lemma {:induction false} LastComponentOfJoin(dir: string, name: string)
    requires '/' !in name
    ensures LastComponent(dir + "/" + name) == name
    decreases |name|
  {
    var p := dir + "/" + name;
    if name == [] {
    } else {
      assert p[..|p| - 1] == dir + "/" + name[..|name| - 1];
      LastComponentOfJoin(dir, name[..|name| - 1]);
      assert name == name[..|name| - 1] + [name[|name| - 1]];
    }
  }

  /** A component that names a file or directory, as opposed to `.`, `..`
      or nothing. */
  predicate IsNormal(name: string) {
    name != [] && '/' !in name && name != "." && name != ".."
  }

  /** `Path::file_name`: the last normal component, ignoring trailing
      separators and `.` components after the first; `None` when the path
      ends in `..`, is a root, is empty, or is `.`. */
  function FileName(p: string): (r: Option<string>)
    ensures r.Some? ==> IsNormal(r.value)
    decreases |p|
  {
    var q := TrimEndMatches(p, "/");
    if q == [] then None
    else
      var last := LastComponent(q);
      if last == "." then
        if q == "." then None else FileName(q[..|q| - 1])
      else if last == ".." then None
      else Some(last)
  }

  /** The file name of `dir/name` is `name`, for a normal `name`. */
  lemma FileNameOfJoin(dir: string, name: string)
    requires IsNormal(name)
    ensures FileName(dir + "/" + name) == Some(name)
  {
    var p := dir + "/" + name;
    assert p[|p| - 1] == name[|name| - 1];
    assert !EndsWith(p, "/");
    LastComponentOfJoin(dir, name);
  }

  /** `Path::extension() == Some(ext)` for a file name and an extension
      without dots: a non-empty stem, a dot, then `ext`. */
  predicate HasExtension(name: string, ext: string) {
    |name| > |ext| + 1 && EndsWith(name, "." + ext)
  }

  /** The archive a pack command writes when no output is given: the input's
      file name (empty when it has none) followed by `.` and the extension. */
  function DefaultArchiveName(input: string, ext: string): (r: string)
    ensures EndsWith(r, "." + ext)
    ensures FileName(input).Some? ==> r == FileName(input).value + "." + ext
    ensures FileName(input).None? ==> r == "." + ext
  {
    FileName(input).GetOr("") + "." + ext
  }

  /** Packing `dir/name` defaults to `name.<ext>`, and a non-empty extension
      makes that a name with that extension. */
  lemma DefaultArchiveNameOfDir(dir: string, name: string, ext: string)
    requires IsNormal(name)
    ensures DefaultArchiveName(dir + "/" + name, ext) == name + "." + ext
    ensures HasExtension(DefaultArchiveName(dir + "/" + name, ext), ext)
  {
    FileNameOfJoin(dir, name);
  }

  /** A path ending in `..` has no file name, so the default is the bare
      extension, a hidden file. */
  lemma DefaultArchiveNameOfParent(dir: string, ext: string)
    ensures DefaultArchiveName(dir + "/..", ext) == "." + ext
  {
    var p := dir + "/..";
    assert p[|p| - 1] == '.';
    assert !EndsWith(p, "/");
    assert TrimEndMatches(p, "/") == p;
    assert p == dir + "/" + "..";
    LastComponentOfJoin(dir, "..");
    assert LastComponent(p) == "..";
    assert |LastComponent(p)| == 2;
    assert LastComponent(p) != ".";
  }
}
