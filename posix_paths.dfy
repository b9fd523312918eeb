/** The two path operations of the core on POSIX paths: `os.path.join` of two components
    and the final component of a path taken as `path.split('/')[-1]`. */
module PosixPaths {
  import opened Strings

  /** `os.path.join(a, b)`: an absolute `b` replaces `a`; otherwise a `/` is inserted
      unless `a` is empty or already ends with one. */
  function PathJoin(a: string, b: string): (r: string)
    ensures EndsWith(r, b)
    ensures StartsWith(b, "/") ==> r == b
    ensures !StartsWith(b, "/") ==> StartsWith(r, a)
  {
    EndsWithAppend(a, b);
    EndsWithAppend(a + "/", b);
    StartsWithAppend(a, b, a);
    StartsWithAppend(a + "/", b, a);
    assert StartsWith(a, a) && StartsWith(a + "/", a);
    if StartsWith(b, "/") then b
    else if a == [] || a[|a| - 1] == '/' then a + b
    else a + "/" + b
  }

  /** `path.split('/')[-1]`: the text after the last `/`, or the whole path when it has none. */
  function Basename(path: string): (r: string)
    ensures '/' !in r
    ensures EndsWith(path, r)
    ensures r == path || (|r| < |path| && path[|path| - |r| - 1] == '/')
  {
    var parts := SplitOn(path, '/');
    SplitPiecesFree(path, '/');
    JoinSplit(path, '/');
    var last := parts[|parts| - 1];
    if |parts| > 1 then
      JoinLast(parts, '/');
      EndsWithAppend(Join(parts[..|parts| - 1], '/') + "/", last);
      last
    else
      assert path == last;
      last
  }

  /** The final component of `dir/name` is `name` when `name` has no `/`. */
  lemma BasenameOfJoined(dir: string, name: string)
    requires '/' !in name
    ensures Basename(dir + "/" + name) == name
  {
    SplitConcat(dir, name, '/');
    SplitAbsent(name, '/');
  }

  /** Joining one directory with two relative names gives equal paths only for equal
      names. */
  lemma PathJoinInjective(a: string, x: string, y: string)
    requires !StartsWith(x, "/") && !StartsWith(y, "/")
    requires PathJoin(a, x) == PathJoin(a, y)
    ensures x == y
  {
    var p := if a == [] || a[|a| - 1] == '/' then a else a + "/";
    assert PathJoin(a, x) == p + x && PathJoin(a, y) == p + y;
    assert x == (p + x)[|p|..];
    assert y == (p + y)[|p|..];
  }
}
