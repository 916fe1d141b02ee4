/**
 * The two System.IO.Path routines the reader calls, simplified to a scan for
 * the Windows separators '\' and '/' and the drive colon ':'. The path is taken
 * as written: the normalisation .NET applies first ('/' to '\', collapsing
 * repeated separators, trimming white space), UNC roots and invalid-character
 * checks are not part of this model.
 */
module Paths {
  import opened Wrappers

  predicate IsSeparator(c: char) {
    c == '\\' || c == '/'
  }

  /** Path.IsPathRooted: a leading separator, or a drive letter followed by ':'. */
  predicate IsPathRooted(p: string) {
    (|p| >= 1 && IsSeparator(p[0])) || (|p| >= 2 && p[1] == ':')
  }

  /** The length of the root of `p`: "\", "C:" or "C:\". */
  function RootLength(p: string): (k: nat)
    ensures k <= |p|
    ensures k > 0 <==> IsPathRooted(p)
  {
    if |p| >= 2 && p[1] == ':' then
      (if |p| >= 3 && IsSeparator(p[2]) then 3 else 2)
    else if |p| >= 1 && IsSeparator(p[0]) then 1
    else 0
  }

  /** The index of the last separator in `s`, if there is one. */
  function LastSeparator(s: string): (r: Option<nat>)
    ensures r.Some? ==> r.value < |s| && IsSeparator(s[r.value])
    ensures r.Some? ==> forall i :: r.value < i < |s| ==> !IsSeparator(s[i])
    ensures r.None? ==> forall i :: 0 <= i < |s| ==> !IsSeparator(s[i])
  {
    if |s| == 0 then None
    else if IsSeparator(s[|s| - 1]) then Some(|s| - 1)
    else LastSeparator(s[..|s| - 1])
  }

  /**
   * Path.GetDirectoryName: `p` without its last segment and the separator before
   * it, keeping the root; None (null) when `p` is empty or nothing but a root.
   */
  function DirectoryName(p: string): (r: Option<string>)
    ensures r.None? <==> |p| == RootLength(p)
    ensures r.Some? ==> RootLength(p) <= |r.value| < |p| && r.value == p[..|r.value|]
    ensures r.Some? ==> forall i :: |r.value| < i < |p| ==> !IsSeparator(p[i])
    ensures r.Some? && |r.value| > RootLength(p) ==> IsSeparator(p[|r.value|])
  {
    var root := RootLength(p);
    if |p| == root then None
    else
      match LastSeparator(p[root..])
      case None => Some(p[..root])
      case Some(j) => Some(p[..root + j])
  }

  /** Path.Combine(path1, path2) for two non-null paths. */
  function Combine(path1: string, path2: string): (r: string)
    ensures |r| >= |path2| && r[|r| - |path2|..] == path2
    ensures IsPathRooted(path2) || path1 == "" ==> r == path2
    ensures path2 == "" ==> r == path1
    ensures path1 != "" && path2 != "" && !IsPathRooted(path2) ==>
      r == path1 + (if IsSeparator(path1[|path1| - 1]) || path1[|path1| - 1] == ':' then "" else "\\") + path2
  {
    if |path2| == 0 then path1
    else if |path1| == 0 then path2
    else if IsPathRooted(path2) then path2
    else
      var last := path1[|path1| - 1];
      if !IsSeparator(last) && last != ':' then path1 + "\\" + path2 else path1 + path2
  }

  /** The last segment of `p`, the part DirectoryName strips (Path.GetFileName). */
  function FileName(p: string): string
    requires DirectoryName(p).Some?
  {
    var d := DirectoryName(p).value;
    if |d| > RootLength(p) then p[|d| + 1..] else p[|d|..]
  }

  /**
   * Combining the directory of a path with its file name rebuilds the path, as
   * long as the path is written the way Combine writes paths: a non-empty file
   * name that is not itself rooted, and a single '\' between directory and file.
   */
  lemma CombineDirectoryName(p: string)
    requires DirectoryName(p).Some?
    requires FileName(p) != "" && !IsPathRooted(FileName(p))
    requires var d := DirectoryName(p).value;
      |d| > RootLength(p) ==> p[|d|] == '\\' && !IsSeparator(p[|d| - 1]) && p[|d| - 1] != ':'
    ensures Combine(DirectoryName(p).value, FileName(p)) == p
  {
    var d, f := DirectoryName(p).value, FileName(p);
    if |d| > RootLength(p) {
      assert p == d + [p[|d|]] + f;
    } else {
      assert p == d + f;
      if d != "" {
        assert d[|d| - 1] == ':' || IsSeparator(d[|d| - 1]);
      }
    }
  }
}
