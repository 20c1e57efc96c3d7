/**
 * The part of `std::path::Path` that `ImageFormat::from_path` relies on, for Unix
 * paths: the file name (last normal component) and its extension.
 */
module Paths {
  import opened Wrappers

  /** The text after the last '/', or the whole path when it has none. */
  function LastPiece(s: string): (p: string)
    ensures |p| <= |s| && p == s[|s| - |p|..]
    ensures '/' !in p
    ensures |p| < |s| ==> s[|s| - |p| - 1] == '/'
    decreases |s|
  {
    if s == [] || s[|s| - 1] == '/' then []
    else
      var q := LastPiece(s[..|s| - 1]);
      assert s[..|s| - 1][|s| - 1 - |q|..] + [s[|s| - 1]] == s[|s| - |q| - 1..];
      q + [s[|s| - 1]]
  }

  /**
   * `Path::file_name`: the last component, where empty components (from repeated or
   * trailing '/') and `.` components do not count; None when that component is `..`
   * or there is none.
   */
  function FileName(s: string): (r: Option<string>)
    ensures r.Some? ==> r.value != "" && r.value != "." && r.value != ".." && '/' !in r.value
    ensures '/' !in s && s != "" && s != "." && s != ".." ==> r == Some(s)
    ensures s != [] && s[|s| - 1] != '/' && LastPiece(s) != "." && LastPiece(s) != ".." ==> r == Some(LastPiece(s))
    decreases |s|
  {
    var p := LastPiece(s);
    if p == "" || p == "." then
      if |p| == |s| then None else FileName(s[..|s| - |p| - 1])
    else if p == ".." then None
    else Some(p)
  }

  /** The position of the last '.' in `f`, if any. */
  function LastDot(f: string): (k: Option<nat>)
    ensures k.None? ==> '.' !in f
    ensures k.Some? ==> k.value < |f| && f[k.value] == '.' && forall i :: k.value < i < |f| ==> f[i] != '.'
    decreases |f|
  {
    if f == [] then None
    else if f[|f| - 1] == '.' then Some(|f| - 1)
    else
      var k := LastDot(f[..|f| - 1]);
      assert f == f[..|f| - 1] + [f[|f| - 1]];
      k
  }

  /**
   * `e` is the extension of the file name `f`: None exactly when no '.' follows the
   * first character; otherwise the text after the last '.', holding no '.' and
   * leaving a non-empty stem before it.
   */
  ghost predicate ExtensionOf(f: string, e: Option<string>) {
    && (e.None? <==> forall i :: 0 < i < |f| ==> f[i] != '.')
    && (e.Some? ==>
      && |e.value| + 2 <= |f|
      && f[|f| - |e.value|..] == e.value
      && f[|f| - |e.value| - 1] == '.'
      && '.' !in e.value)
  }

  /** What follows the last '.' of a file name, unless that '.' is its first character. */
  function NameExtension(f: string): (r: Option<string>)
    ensures ExtensionOf(f, r)
  {
    match LastDot(f)
    case None => None
    case Some(k) =>
      if k == 0 then None
      else
        var e := f[k + 1..];
        assert forall i :: 0 <= i < |e| ==> e[i] == f[k + 1 + i];
        assert f[k] == '.';
        Some(e)
  }

  /** The extension of `stem.ext` is `ext` when `ext` holds no '.' and the stem is not empty. */
  lemma PlainExtension(stem: string, ext: string)
    requires stem != "" && '.' !in ext
    ensures NameExtension(stem + "." + ext) == Some(ext)
  {
    var f := stem + "." + ext;
    assert f[|stem|] == '.';
    assert forall i :: |stem| < i < |f| ==> f[i] == ext[i - |stem| - 1];
    var k := LastDot(f);
    assert k.Some? && k.value == |stem|;
    assert f[|stem| + 1..] == ext;
  }

  /** `Path::extension`: the extension of the file name, when there is one. */
  function Extension(s: string): (r: Option<string>)
    ensures FileName(s).None? ==> r.None?
    ensures FileName(s).Some? ==> ExtensionOf(FileName(s).value, r)
  {
    match FileName(s)
    case None => None
    case Some(f) => NameExtension(f)
  }

  /**
   * When no '.' occurs from position `m` on and the path ends in an ordinary character,
   * any extension the path has runs through every position from `m` on; in particular
   * it holds the character at `e`.
   */
  lemma ExtensionCovers(s: string, m: nat, e: nat)
    requires m <= e < |s|
    requires s[|s| - 1] != '/' && s[|s| - 1] != '.'
    requires forall i :: m <= i < |s| ==> s[i] != '.'
    ensures Extension(s).Some? ==> s[e] in Extension(s).value
  {
    var p := LastPiece(s);
    var start := |s| - |p|;
    assert p[|p| - 1] == s[|s| - 1];
    assert FileName(s) == Some(p);
    match LastDot(p)
    case None =>
    case Some(k) =>
      if k > 0 {
        assert p[k] == s[start + k];
        assert start + k < m;
        assert p[k + 1..][e - start - k - 1] == s[e];
      }
  }
}
