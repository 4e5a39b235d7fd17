/** The few `std::path::Path` operations the service applies to file
    names, with `/` as the only separator. */
module Paths {
  import opened Wrappers

  /** A file inside a directory: `dir.join(name)`. */
  datatype FilePath = FilePath(dir: string, name: string)

  /** The position of the last `c` in `s`. */
  function LastIndexOf(s: string, c: char): (r: Option<nat>)
    ensures r.None? <==> c !in s
    ensures r.Some? ==> r.value < |s| && s[r.value] == c && c !in s[r.value + 1..]
    decreases |s|
  {
    if |s| == 0 then None
    else if s[|s| - 1] == c then Some(|s| - 1)
    else
      var r := LastIndexOf(s[..|s| - 1], c);
      assert r.Some? ==> s[r.value + 1..] == s[..|s| - 1][r.value + 1..] + [s[|s| - 1]];
      assert r.None? ==> s == s[..|s| - 1] + [s[|s| - 1]];
      r
  }

  /** `Path::file_stem`: the name without its last extension; a leading dot
      does not start an extension. */
  function FileStem(name: string): string {
    match LastIndexOf(name, '.')
    case Some(k) => if k > 0 then name[..k] else name
    case None => name
  }

  /** `Path::with_extension(ext)` on a file name, `ext` not empty: the
      text after the last dot of the name is replaced by `ext`; a name
      whose only dot is its first character gets `ext` appended. */
  function WithExtension(name: string, ext: string): (r: string)
    ensures |name| == 0 || '.' !in name[1..] ==> r == name + "." + ext
    ensures forall k {:trigger name[..k]} | 0 < k < |name| && name[k] == '.' && '.' !in name[k + 1..] :: r == name[..k] + "." + ext
  {
    LastDotFound(name);
    FileStem(name) + "." + ext
  }

  /** Any dot with none after it is the one `LastIndexOf` finds, and no
      dot past the first character means none is found there. */
  lemma LastDotFound(name: string)
    ensures |name| == 0 || '.' !in name[1..] ==> FileStem(name) == name
    ensures forall k | 0 < k < |name| && name[k] == '.' && '.' !in name[k + 1..] :: LastIndexOf(name, '.') == Some(k)
  {
    forall k | 0 < k < |name| && name[k] == '.' && '.' !in name[k + 1..] {
      LastIndexOfAt(name, '.', k);
    }
  }

  /** The name a log file is renamed to when it is rotated:
      `with_extension("old.log")`. */
  function RotatedName(name: string): (r: string)
    ensures |r| >= 8 && r[|r| - 8..] == ".old.log" && r[..|r| - 8] <= name
  {
    WithExtension(name, "old.log")
  }

  /** `x.log` is rotated to `x.old.log`, whatever dots `x` holds. */
  lemma RotatedLogName(stem: string)
    requires |stem| > 0
    ensures RotatedName(stem + ".log") == stem + ".old.log"
  {
    var name := stem + ".log";
    var k := |stem|;
    assert name[k + 1..] == "log";
    assert name[..k] == stem;
    assert 0 < k < |name| && name[k] == '.' && '.' !in name[k + 1..];
    assert WithExtension(name, "old.log") == name[..k] + "." + "old.log";
  }

  /** A name without any dot gets the extension appended. */
  lemma RotatedNameWithoutDot(name: string)
    requires '.' !in name
    ensures RotatedName(name) == name + ".old.log"
  {
  }


  predicate IsSpecialName(name: string) {
    name == "" || name == "." || name == ".."
  }

  /** The last component of a path: what follows its last separator. */
  function LastComponent(p: string): (r: string)
    ensures '/' !in r && |r| <= |p|
  {
    match LastIndexOf(p, '/')
    case None => p
    case Some(k) => p[k + 1..]
  }

  /** The last component is the longest suffix without a separator. */
  lemma LastComponentIsSuffix(p: string)
    ensures var r := LastComponent(p);
      && p[|p| - |r|..] == r
      && (|r| == |p| || p[|p| - |r| - 1] == '/')
  {
  }

  /** `Path::parent` and `Path::file_name` of a path; `None` when either is
      `None` (the empty path, a path ending in a separator, `.` or `..`). */
  function SplitPath(p: string): (r: Option<FilePath>)
    ensures r.None? <==> IsSpecialName(LastComponent(p))
    ensures r.Some? ==> r.value.name == LastComponent(p)
  {
    var name := LastComponent(p);
    if IsSpecialName(name) then None
    else if |name| == |p| then Some(FilePath("", p))
    else
      var k := |p| - |name| - 1;
      assert p[k] == '/';
      Some(FilePath(if k == 0 then "/" else p[..k], name))
  }

  /** The parent `SplitPath` finds: empty exactly when the path has no
      separator, else the text before the last separator, or `/` when that
      separator is the first character. */
  lemma SplitPathParent(p: string)
    requires SplitPath(p).Some?
    ensures var f := SplitPath(p).value;
      && (f.dir == "" <==> '/' !in p)
      && (f.dir != "" ==> var k := |p| - |f.name| - 1; f.dir == if k == 0 then "/" else p[..k])
  {
  }

  /** `dir.join(name)` written out as text. */
  function JoinPath(f: FilePath): string {
    if f.dir == "" then f.name
    else if f.dir == "/" then "/" + f.name
    else f.dir + "/" + f.name
  }

  /** Splitting a joined path gives back the directory and the name. */
  lemma SplitJoinPath(f: FilePath)
    requires '/' !in f.name && !IsSpecialName(f.name)
    requires f.dir == "" || f.dir == "/" || (f.dir[|f.dir| - 1] != '/')
    ensures SplitPath(JoinPath(f)) == Some(f)
  {
    if f.dir == "" {
      assert LastIndexOf(f.name, '/') == None;
    } else {
      var p := JoinPath(f);
      var k := if f.dir == "/" then 0 else |f.dir|;
      assert p[k] == '/' && p[k + 1..] == f.name;
      assert k > 0 ==> p[..k] == f.dir;
      LastIndexOfAt(p, '/', k);
      SplitAt(p, k);
    }
  }

  /** A path whose last separator is at `k` splits there. */
  lemma SplitAt(p: string, k: nat)
    requires LastIndexOf(p, '/') == Some(k) && !IsSpecialName(p[k + 1..])
    ensures SplitPath(p) == Some(FilePath(if k == 0 then "/" else p[..k], p[k + 1..]))
  {
    var name := LastComponent(p);
    assert name == p[k + 1..];
    assert |name| == |p| - k - 1;
    assert |p| - |name| - 1 == k;
  }

  /** The last occurrence is the one with none after it. */
  lemma LastIndexOfAt(s: string, c: char, k: nat)
    requires k < |s| && s[k] == c && c !in s[k + 1..]
    ensures LastIndexOf(s, c) == Some(k)
  {
    assert c in s;
    var r := LastIndexOf(s, c).value;
    assert forall j | k < j < |s| :: s[j] == s[k + 1..][j - k - 1];
    assert forall j | r < j < |s| :: s[j] == s[r + 1..][j - r - 1];
  }
}
