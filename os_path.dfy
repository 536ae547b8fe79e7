/** The two POSIX path helpers the reports use: `os.path.basename` and `os.path.join`. */
module OsPath {
  import opened Common

  /**
   * `os.path.basename(p)`: everything after the last `/` (all of `p` when it has none,
   * the empty string when `p` ends in `/`).
   */
  function Basename(p: string): (b: string)
    ensures '/' !in b
    ensures EndsWith(p, b)
    ensures |b| == |p| || p[|p| - |b| - 1] == '/'
    decreases |p|
  {
    if p == "" || p[|p| - 1] == '/' then ""
    else
      var init := p[..|p| - 1];
      assert p == init + [p[|p| - 1]];
      Basename(init) + [p[|p| - 1]]
  }

  /**
   * `Basename` is the longest slash-free suffix, so two paths that end in the same
   * slash-free component after a slash have the same basename.
   */
  lemma {:induction false} BasenameOfJoined(dir: string, name: string)
    requires '/' !in name
    ensures Basename(dir + "/" + name) == name
    decreases |name|
  {
    var p := dir + "/" + name;
    if name == "" {
      assert p[|p| - 1] == '/';
    } else {
      assert p[..|p| - 1] == dir + "/" + name[..|name| - 1];
      BasenameOfJoined(dir, name[..|name| - 1]);
      assert name == name[..|name| - 1] + [name[|name| - 1]];
    }
  }

  /**
   * `os.path.join(a, b)` for two components: an absolute `b` replaces `a`; otherwise a `/` is
   * put between them unless `a` is empty or already ends in one.
   */
  function Join(a: string, b: string): (r: string)
    ensures |b| > 0 && b[0] == '/' ==> r == b
    ensures (b == [] || b[0] != '/') && (a == [] || a[|a| - 1] == '/') ==> r == a + b
    ensures (b == [] || b[0] != '/') && a != [] && a[|a| - 1] != '/' ==> r == a + "/" + b
    ensures EndsWith(r, b)
  {
    if |b| > 0 && b[0] == '/' then b
    else if a == "" || a[|a| - 1] == '/' then a + b
    else a + "/" + b
  }

  /** A slash-free name joined onto any directory is the basename of the result. */
  lemma BasenameOfJoin(dir: string, name: string)
    requires '/' !in name
    ensures Basename(Join(dir, name)) == name
  {
    if dir == [] {
      BasenameOfSlashFree(name);
    } else if dir[|dir| - 1] == '/' {
      var front := dir[..|dir| - 1];
      assert dir + name == front + "/" + name;
      BasenameOfJoined(front, name);
    } else {
      BasenameOfJoined(dir, name);
    }
  }

  lemma BasenameOfSlashFree(p: string)
    requires '/' !in p
    ensures Basename(p) == p
  {
    var b := Basename(p);
    assert p[|p| - |b|..] == b;
  }
}
