/** The `os.path` functions of a POSIX Python (posixpath) that the parsers
    use. */
module Paths {
  import opened Strings

  datatype PathParts = PathParts(dir: string, name: string)

  datatype RootExt = RootExt(root: string, ext: string)

  predicate AllSlashes(s: string) {
    forall k :: 0 <= k < |s| ==> s[k] == '/'
  }

  /** The directory part `os.path.split` can return: only slashes (the root,
      or nothing) or a string that does not end in a slash. */
  predicate NormalDir(d: string) {
    AllSlashes(d) || d[|d| - 1] != '/'
  }

  /** `s.rstrip("/")` */
  function StripTrailingSlashes(s: string): (r: string)
    ensures r <= s
    ensures |r| == 0 || r[|r| - 1] != '/'
    ensures AllSlashes(s[|r|..])
  {
    if |s| > 0 && s[|s| - 1] == '/' then StripTrailingSlashes(s[..|s| - 1]) else s
  }

  /** `os.path.split(p)`: everything after the last slash is the name; the
      rest, stripped of trailing slashes unless it is only slashes, is the
      directory. */
  function PathSplit(p: string): (parts: PathParts)
    ensures '/' !in parts.name
    ensures EndsWith(p, parts.name)
    ensures NormalDir(parts.dir)
  {
    var i := LastIndexOf(p, '/') + 1;
    var head := p[..i];
    var dir := if head != "" && !AllSlashes(head) then StripTrailingSlashes(head) else head;
    assert p[i..] == p[|p| - |p[i..]|..];
    PathParts(dir, p[i..])
  }

  /** `os.path.join(a, b)` for two components. */
  function PathJoin(a: string, b: string): string {
    if |b| > 0 && b[0] == '/' then b
    else if a == "" || a[|a| - 1] == '/' then a + b
    else a + "/" + b
  }

  /** `os.path.splitext(p)`: the extension runs from the last dot of the
      last component, unless only dots precede that dot in the component. */
  function SplitExt(p: string): (r: RootExt)
    ensures r.root + r.ext == p
    ensures r.ext == "" || (r.ext[0] == '.' && '.' !in r.ext[1..] && '/' !in r.ext)
  {
    var sepIndex := LastIndexOf(p, '/');
    var dotIndex := LastIndexOf(p, '.');
    if dotIndex > sepIndex && exists k :: sepIndex + 1 <= k < dotIndex && p[k] != '.' then
      assert p[..dotIndex] + p[dotIndex..] == p;
      RootExt(p[..dotIndex], p[dotIndex..])
    else
      RootExt(p, "")
  }

  /** Joining a directory that `os.path.split` could have produced with a
      plain file name, then splitting, gives both back. */
  lemma SplitOfJoin(dir: string, name: string)
    requires NormalDir(dir) && '/' !in name
    ensures PathSplit(PathJoin(dir, name)) == PathParts(dir, name)
  {
    var p := PathJoin(dir, name);
    var i := LastIndexOf(p, '/');
    if dir == "" {
      assert p == name;
      assert i == -1;
      assert p[..i + 1] == "";
    } else if dir[|dir| - 1] == '/' {
      assert p == dir + name;
      assert p[|dir| - 1] == '/';
      assert i == |dir| - 1;
      assert p[..i + 1] == dir;
      assert p[i + 1..] == name;
    } else {
      assert p == dir + "/" + name;
      assert p[|dir|] == '/';
      assert i == |dir|;
      var head := p[..i + 1];
      assert head == dir + "/";
      assert !AllSlashes(head) by { assert head[|dir| - 1] != '/'; }
      var r := StripTrailingSlashes(head);
      assert r == dir by { assert r == head[..|r|]; }
      assert p[i + 1..] == name;
    }
  }
}
