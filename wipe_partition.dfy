/**
 * `wipe_partition`: walk the tree under the chosen directory bottom-up and remove every file
 * and then every subdirectory of each directory visited. Files are removed, not overwritten.
 * The directory itself stays. The first removal that raises ends the walk with `False`.
 */
module WipePartition {
  import opened Common

  /** A path below the partition root, as its components; the root itself is `[]`. */
  type Path = seq<string>

  /** A directory entry: a file, or a directory with its entries in listing order. */
  datatype Entry = File(name: string) | Dir(name: string, entries: seq<Entry>)

  /** What `os.walk` yields for one directory: its path, its subdirectory names, its file names. */
  datatype WalkStep = WalkStep(root: Path, dirs: seq<string>, files: seq<string>)

  /** The removals `wipe_partition` attempts. */
  datatype Removal = RemoveFile(path: Path) | RemoveDir(path: Path)

  function DirNames(es: seq<Entry>): (ns: seq<string>)
    decreases |es|
  {
    if es == [] then [] else (if es[0].Dir? then [es[0].name] else []) + DirNames(es[1..])
  }

  function FileNames(es: seq<Entry>): (ns: seq<string>)
    decreases |es|
  {
    if es == [] then [] else (if es[0].File? then [es[0].name] else []) + FileNames(es[1..])
  }

  /** Names within one directory are distinct, in every directory of the tree. */
  ghost predicate WellFormed(d: Entry)
    decreases d
  {
    d.Dir?
    && (forall i, j :: 0 <= i < j < |d.entries| ==> d.entries[i].name != d.entries[j].name)
    && (forall i :: 0 <= i < |d.entries| && d.entries[i].Dir? ==> WellFormed(d.entries[i]))
  }

  /** `os.walk(top, topdown=False)` from directory `d` at `root`: every subtree first, in listing order, then `d`. */
  function Walk(root: Path, d: Entry): seq<WalkStep>
    requires d.Dir?
    decreases d, |d.entries| + 1
  {
    WalkFrom(root, d, 0) + [WalkStep(root, DirNames(d.entries), FileNames(d.entries))]
  }

  /** The walks of the subdirectories of `d` from its `i`-th entry on. */
  function WalkFrom(root: Path, d: Entry, i: nat): seq<WalkStep>
    requires d.Dir? && i <= |d.entries|
    decreases d, |d.entries| - i
  {
    if i == |d.entries| then []
    else
      var c := d.entries[i];
      (if c.Dir? then Walk(root + [c.name], c) else []) + WalkFrom(root, d, i + 1)
  }

  /** What the loop body does for one step of the walk: remove its files, then its subdirectories. */
  function StepRemovals(w: WalkStep): (rs: seq<Removal>)
    ensures |rs| == |w.files| + |w.dirs|
  {
    seq(|w.files|, i requires 0 <= i < |w.files| => RemoveFile(w.root + [w.files[i]]))
    + seq(|w.dirs|, i requires 0 <= i < |w.dirs| => RemoveDir(w.root + [w.dirs[i]]))
  }

  /** All removals of a walk, in order. */
  function Removals(walk: seq<WalkStep>): seq<Removal>
    decreases |walk|
  {
    if walk == [] then [] else Removals(walk[..|walk| - 1]) + StepRemovals(walk[|walk| - 1])
  }

  lemma {:induction false} RemovalsAppend(a: seq<WalkStep>, b: seq<WalkStep>)
    ensures Removals(a + b) == Removals(a) + Removals(b)
    decreases |b|
  {
    if b == [] {
      assert a + b == a;
    } else {
      var b', last := b[..|b| - 1], b[|b| - 1];
      assert (a + b)[..|a + b| - 1] == a + b' && (a + b)[|a + b| - 1] == last;
      RemovalsAppend(a, b');
      assert Removals(a + b) == Removals(a + b') + StepRemovals(last);
      assert Removals(b) == Removals(b') + StepRemovals(last);
    }
  }

  predicate StrictPrefix(p: Path, q: Path)
  {
    |p| < |q| && q[..|p|] == p
  }

  /** Every path is removed at most once, and no directory before anything beneath it. */
  ghost predicate BottomUp(rs: seq<Removal>)
  {
    forall i, j :: 0 <= i < j < |rs| ==>
      rs[i].path != rs[j].path && (rs[i].RemoveDir? ==> !StrictPrefix(rs[i].path, rs[j].path))
  }

  /** Every removal is of a path strictly below `root` whose first component below it is in `names`. */
  ghost predicate Below(rs: seq<Removal>, root: Path, names: set<string>, minDepth: nat)
  {
    forall k :: 0 <= k < |rs| ==>
      StrictPrefix(root, rs[k].path) && |rs[k].path| >= |root| + minDepth && rs[k].path[|root|] in names
  }

  /** The names of the subdirectories of `d` from its `i`-th entry on. */
  function DirNamesFrom(d: Entry, i: nat): set<string>
    requires d.Dir? && i <= |d.entries|
  {
    set j | i <= j < |d.entries| && d.entries[j].Dir? :: d.entries[j].name
  }

  function EntryNames(d: Entry): set<string>
    requires d.Dir?
  {
    set j | 0 <= j < |d.entries| :: d.entries[j].name
  }

  lemma BottomUpAppend(a: seq<Removal>, b: seq<Removal>)
    requires BottomUp(a) && BottomUp(b)
    requires forall i, j :: 0 <= i < |a| && 0 <= j < |b| ==>
      a[i].path != b[j].path && (a[i].RemoveDir? ==> !StrictPrefix(a[i].path, b[j].path))
    ensures BottomUp(a + b)
  {
    forall i, j | 0 <= i < j < |a + b|
      ensures (a + b)[i].path != (a + b)[j].path
      ensures (a + b)[i].RemoveDir? ==> !StrictPrefix((a + b)[i].path, (a + b)[j].path)
    {
      if j < |a| {
      } else if i < |a| {
        assert (a + b)[j] == b[j - |a|];
      } else {
        assert (a + b)[i] == b[i - |a|] && (a + b)[j] == b[j - |a|];
      }
    }
  }

  lemma BelowAppend(a: seq<Removal>, b: seq<Removal>, root: Path, na: set<string>, nb: set<string>, m: nat)
    requires Below(a, root, na, m) && Below(b, root, nb, m)
    ensures Below(a + b, root, na + nb, m)
  {
    forall k | 0 <= k < |a + b|
      ensures StrictPrefix(root, (a + b)[k].path) && |(a + b)[k].path| >= |root| + m && (a + b)[k].path[|root|] in na + nb
    {
      if k >= |a| { assert (a + b)[k] == b[k - |a|]; }
    }
  }

  lemma DirNamesIn(es: seq<Entry>, n: string)
    requires n in DirNames(es)
    ensures exists j :: 0 <= j < |es| && es[j].Dir? && es[j].name == n
    decreases |es|
  {
    if es[0].Dir? && n == es[0].name {
    } else {
      DirNamesIn(es[1..], n);
      var j :| 0 <= j < |es[1..]| && es[1..][j].Dir? && es[1..][j].name == n;
      assert es[j + 1] == es[1..][j];
    }
  }

  lemma FileNamesIn(es: seq<Entry>, n: string)
    requires n in FileNames(es)
    ensures exists j :: 0 <= j < |es| && es[j].File? && es[j].name == n
    decreases |es|
  {
    if es[0].File? && n == es[0].name {
    } else {
      FileNamesIn(es[1..], n);
      var j :| 0 <= j < |es[1..]| && es[1..][j].File? && es[1..][j].name == n;
      assert es[j + 1] == es[1..][j];
    }
  }

  /** With distinct entry names, the file and subdirectory lists hold no name twice. */
  lemma {:induction false} ListedOnce(es: seq<Entry>)
    requires forall i, j :: 0 <= i < j < |es| ==> es[i].name != es[j].name
    ensures NoRepeats(FileNames(es)) && NoRepeats(DirNames(es))
    ensures forall x, y :: 0 <= x < |FileNames(es)| && 0 <= y < |DirNames(es)| ==> FileNames(es)[x] != DirNames(es)[y]
    decreases |es|
  {
    if es != [] {
      var rest := es[1..];
      ListedOnce(rest);
      var n := es[0].name;
      var fs, ds := FileNames(rest), DirNames(rest);
      forall j | 0 <= j < |rest|
        ensures rest[j].name != n
      {
        assert rest[j] == es[j + 1];
      }
      NotListed(rest, n);
      if es[0].File? {
        assert FileNames(es) == [n] + fs && DirNames(es) == ds;
        PrependNoRepeats(n, fs);
      } else {
        assert DirNames(es) == [n] + ds && FileNames(es) == fs;
        PrependNoRepeats(n, ds);
      }
    }
  }

  lemma {:induction false} NotListed(es: seq<Entry>, n: string)
    requires forall j :: 0 <= j < |es| ==> es[j].name != n
    ensures n !in FileNames(es) && n !in DirNames(es)
    decreases |es|
  {
    if es != [] {
      NotListed(es[1..], n);
    }
  }

  predicate NoRepeats<T(==)>(s: seq<T>)
  {
    forall x, y :: 0 <= x < y < |s| ==> s[x] != s[y]
  }

  lemma PrependNoRepeats<T>(n: T, s: seq<T>)
    requires NoRepeats(s) && n !in s
    ensures NoRepeats([n] + s)
  {
    forall x, y | 0 <= x < y < |[n] + s|
      ensures ([n] + s)[x] != ([n] + s)[y]
    {
      assert ([n] + s)[y] == s[y - 1];
      if x > 0 { assert ([n] + s)[x] == s[x - 1]; }
    }
  }

  /** The removals for `d`'s own step: its files and subdirectories, one level below `root`. */
  lemma OwnStep(root: Path, d: Entry)
    requires d.Dir?
    requires forall i, j :: 0 <= i < j < |d.entries| ==> d.entries[i].name != d.entries[j].name
    ensures var own := StepRemovals(WalkStep(root, DirNames(d.entries), FileNames(d.entries)));
      BottomUp(own) && Below(own, root, EntryNames(d), 1)
      && forall k :: 0 <= k < |own| ==> |own[k].path| == |root| + 1
  {
    var w := WalkStep(root, DirNames(d.entries), FileNames(d.entries));
    var own := StepRemovals(w);
    forall k | 0 <= k < |own|
      ensures |own[k].path| == |root| + 1 && StrictPrefix(root, own[k].path) && own[k].path[|root|] in EntryNames(d)
    {
      if k < |w.files| {
        var n := w.files[k];
        assert own[k].path == root + [n];
        FileNamesIn(d.entries, n);
      } else {
        var n := w.dirs[k - |w.files|];
        assert own[k].path == root + [n];
        DirNamesIn(d.entries, n);
      }
    }
    ListedOnce(d.entries);
    forall x, y | 0 <= x < y < |own|
      ensures own[x].path != own[y].path
    {
      assert own[x].path[|root|] != own[y].path[|root|];
    }
  }

  /**
   * The removals of a walk from `d` at `root` go bottom-up, and every one is strictly below
   * `root`, in one of `d`'s entries.
   */
  lemma {:induction false} WalkBottomUp(root: Path, d: Entry)
    requires WellFormed(d)
    ensures BottomUp(Removals(Walk(root, d)))
    ensures Below(Removals(Walk(root, d)), root, EntryNames(d), 1)
    decreases d, |d.entries| + 1
  {
    var sub := WalkFrom(root, d, 0);
    var w := WalkStep(root, DirNames(d.entries), FileNames(d.entries));
    RemovalsAppend(sub, [w]);
    assert Removals([w]) == StepRemovals(w) by { assert [w][..0] == []; }
    WalkFromBottomUp(root, d, 0);
    OwnStep(root, d);
    var a, b := Removals(sub), StepRemovals(w);
    assert DirNamesFrom(d, 0) <= EntryNames(d);
    BottomUpAppend(a, b);
    BelowAppend(a, b, root, DirNamesFrom(d, 0), EntryNames(d), 1);
    assert DirNamesFrom(d, 0) + EntryNames(d) == EntryNames(d);
  }

  /**
   * The removals of the subtree walks from entry `i` on go bottom-up, and each is at least two
   * levels below `root`, under one of the subdirectories from `i` on.
   */
  lemma {:induction false} WalkFromBottomUp(root: Path, d: Entry, i: nat)
    requires WellFormed(d) && i <= |d.entries|
    ensures BottomUp(Removals(WalkFrom(root, d, i)))
    ensures Below(Removals(WalkFrom(root, d, i)), root, DirNamesFrom(d, i), 2)
    decreases d, |d.entries| - i
  {
    if i < |d.entries| {
      var c := d.entries[i];
      var rest := WalkFrom(root, d, i + 1);
      WalkFromBottomUp(root, d, i + 1);
      var b := Removals(rest);
      if c.Dir? {
        var here := Walk(root + [c.name], c);
        RemovalsAppend(here, rest);
        WalkBottomUp(root + [c.name], c);
        var a := Removals(here);
        BelowChild(a, root, c.name, EntryNames(c));
        SiblingsApart(root, d, i, a, b);
        BottomUpAppend(a, b);
        BelowAppend(a, b, root, {c.name}, DirNamesFrom(d, i + 1), 2);
        assert {c.name} + DirNamesFrom(d, i + 1) == DirNamesFrom(d, i);
      } else {
        assert WalkFrom(root, d, i) == rest;
        assert DirNamesFrom(d, i + 1) == DirNamesFrom(d, i);
      }
    } else {
      assert Removals([]) == [];
    }
  }

  /** Removals below the child `root + [n]` are at least two levels below `root`, under `n`. */
  lemma BelowChild(a: seq<Removal>, root: Path, n: string, names: set<string>)
    requires Below(a, root + [n], names, 1)
    ensures Below(a, root, {n}, 2)
  {
    forall k | 0 <= k < |a|
      ensures StrictPrefix(root, a[k].path) && |a[k].path| >= |root| + 2 && a[k].path[|root|] in {n}
    {
      ChildPath(root, n, a[k].path);
    }
  }

  /** The removals under entry `i` and those under later subdirectories touch different paths, neither above the other. */
  lemma SiblingsApart(root: Path, d: Entry, i: nat, a: seq<Removal>, b: seq<Removal>)
    requires d.Dir? && i < |d.entries|
    requires forall x, y :: 0 <= x < y < |d.entries| ==> d.entries[x].name != d.entries[y].name
    requires Below(a, root, {d.entries[i].name}, 2) && Below(b, root, DirNamesFrom(d, i + 1), 2)
    ensures forall x, y :: 0 <= x < |a| && 0 <= y < |b| ==>
      a[x].path != b[y].path && (a[x].RemoveDir? ==> !StrictPrefix(a[x].path, b[y].path))
  {
    forall x, y | 0 <= x < |a| && 0 <= y < |b|
      ensures a[x].path[|root|] != b[y].path[|root|]
    {
      var n := b[y].path[|root|];
      var j :| i + 1 <= j < |d.entries| && d.entries[j].Dir? && d.entries[j].name == n;
    }
  }

  /** `p` names an entry of the tree under directory `d`: each component is an entry of the directory before it. */
  ghost predicate InTree(d: Entry, p: Path)
    decreases d
  {
    d.Dir? && |p| > 0
    && exists j :: 0 <= j < |d.entries| && d.entries[j].name == p[0] && (|p| == 1 || InTree(d.entries[j], p[1..]))
  }

  /** The paths a sequence of removals removes. */
  function PathSet(rs: seq<Removal>): (ps: set<Path>)
    ensures forall k :: 0 <= k < |rs| ==> rs[k].path in ps
    ensures forall p :: p in ps ==> exists k :: 0 <= k < |rs| && rs[k].path == p
  {
    set k | 0 <= k < |rs| :: rs[k].path
  }

  lemma PathSetAppend(a: seq<Removal>, b: seq<Removal>)
    ensures PathSet(a + b) == PathSet(a) + PathSet(b)
  {
    forall p | p in PathSet(a + b)
      ensures p in PathSet(a) + PathSet(b)
    {
      var k :| 0 <= k < |a + b| && (a + b)[k].path == p;
      if k >= |a| { assert (a + b)[k] == b[k - |a|]; }
    }
    forall p | p in PathSet(a)
      ensures p in PathSet(a + b)
    {
      var k :| 0 <= k < |a| && a[k].path == p;
      assert (a + b)[k] == a[k];
    }
    forall p | p in PathSet(b)
      ensures p in PathSet(a + b)
    {
      var k :| 0 <= k < |b| && b[k].path == p;
      assert (a + b)[|a| + k] == b[k];
    }
  }

  /** Each entry's name is in the file list or the subdirectory list, by its kind. */
  lemma {:induction false} Listed(es: seq<Entry>, j: nat)
    requires j < |es|
    ensures es[j].File? ==> es[j].name in FileNames(es)
    ensures es[j].Dir? ==> es[j].name in DirNames(es)
    decreases |es|
  {
    if j > 0 {
      Listed(es[1..], j - 1);
    }
  }

  /** The paths `d`'s own step removes are exactly those of its entries. */
  lemma OwnPaths(root: Path, d: Entry, p: Path)
    requires d.Dir?
    ensures p in PathSet(StepRemovals(WalkStep(root, DirNames(d.entries), FileNames(d.entries))))
        <==> exists j :: 0 <= j < |d.entries| && p == root + [d.entries[j].name]
  {
    var own := StepRemovals(WalkStep(root, DirNames(d.entries), FileNames(d.entries)));
    if p in PathSet(own) {
      OwnPathIsEntry(root, d, p);
    }
    if j :| 0 <= j < |d.entries| && p == root + [d.entries[j].name] {
      EntryIsOwnPath(root, d, j);
    }
  }

  lemma OwnPathIsEntry(root: Path, d: Entry, p: Path)
    requires d.Dir?
    requires p in PathSet(StepRemovals(WalkStep(root, DirNames(d.entries), FileNames(d.entries))))
    ensures exists j :: 0 <= j < |d.entries| && p == root + [d.entries[j].name]
  {
    var w := WalkStep(root, DirNames(d.entries), FileNames(d.entries));
    var own := StepRemovals(w);
    var k :| 0 <= k < |own| && own[k].path == p;
    var n := if k < |w.files| then w.files[k] else w.dirs[k - |w.files|];
    assert p == root + [n];
    if k < |w.files| {
      FileNamesIn(d.entries, n);
    } else {
      DirNamesIn(d.entries, n);
    }
    var j :| 0 <= j < |d.entries| && d.entries[j].name == n;
  }

  lemma EntryIsOwnPath(root: Path, d: Entry, j: nat)
    requires d.Dir? && j < |d.entries|
    ensures root + [d.entries[j].name] in PathSet(StepRemovals(WalkStep(root, DirNames(d.entries), FileNames(d.entries))))
  {
    var w := WalkStep(root, DirNames(d.entries), FileNames(d.entries));
    var own := StepRemovals(w);
    Listed(d.entries, j);
    var n := d.entries[j].name;
    if d.entries[j].File? {
      var x :| 0 <= x < |w.files| && w.files[x] == n;
      assert own[x].path == root + [n];
    } else {
      var x :| 0 <= x < |w.dirs| && w.dirs[x] == n;
      assert own[|w.files| + x].path == root + [n];
    }
  }

  /** The paths the subtree walks from entry `i` on remove are those the walk of one of those subdirectories removes. */
  lemma {:induction false} WalkFromPaths(root: Path, d: Entry, i: nat, p: Path)
    requires d.Dir? && i <= |d.entries|
    ensures p in PathSet(Removals(WalkFrom(root, d, i)))
        <==> exists j :: i <= j < |d.entries| && d.entries[j].Dir?
               && p in PathSet(Removals(Walk(root + [d.entries[j].name], d.entries[j])))
    decreases |d.entries| - i
  {
    if i < |d.entries| {
      var c := d.entries[i];
      WalkFromPaths(root, d, i + 1, p);
      var here := if c.Dir? then Walk(root + [c.name], c) else [];
      RemovalsAppend(here, WalkFrom(root, d, i + 1));
      PathSetAppend(Removals(here), Removals(WalkFrom(root, d, i + 1)));
      if !c.Dir? {
        assert Removals([]) == [];
      }
    }
  }

  /**
   * Coverage: the removals of the walk from `d` at `root` remove exactly the paths strictly below
   * `root` that name an entry of the tree under `d`.
   */
  lemma WalkCovers(root: Path, d: Entry, p: Path)
    requires d.Dir?
    ensures p in PathSet(Removals(Walk(root, d))) <==> StrictPrefix(root, p) && InTree(d, p[|root|..])
  {
    if p in PathSet(Removals(Walk(root, d))) {
      WalkRemovesOnlyTree(root, d, p);
    }
    if StrictPrefix(root, p) && InTree(d, p[|root|..]) {
      WalkRemovesWholeTree(root, d, p);
    }
  }

  /** The removals of `Walk(root, d)`, split as the subtree walks and `d`'s own step. */
  lemma WalkPaths(root: Path, d: Entry, p: Path)
    requires d.Dir?
    ensures p in PathSet(Removals(Walk(root, d)))
        <==> (exists j :: 0 <= j < |d.entries| && p == root + [d.entries[j].name])
             || (exists j :: 0 <= j < |d.entries| && d.entries[j].Dir?
                  && p in PathSet(Removals(Walk(root + [d.entries[j].name], d.entries[j]))))
  {
    var sub := WalkFrom(root, d, 0);
    var w := WalkStep(root, DirNames(d.entries), FileNames(d.entries));
    RemovalsAppend(sub, [w]);
    assert Removals([w]) == StepRemovals(w) by { assert [w][..0] == []; }
    PathSetAppend(Removals(sub), StepRemovals(w));
    OwnPaths(root, d, p);
    WalkFromPaths(root, d, 0, p);
  }

  /** A path strictly below `root + [n]` is strictly below `root`, and its part below `root` starts with `n`. */
  lemma ChildPath(root: Path, n: string, p: Path)
    requires StrictPrefix(root + [n], p)
    ensures StrictPrefix(root, p) && |p| >= |root| + 2 && p[|root|] == n
    ensures p[|root|..][0] == n && p[|root|..][1..] == p[|root| + 1..]
  {
    assert p[..|root| + 1] == root + [n];
    assert p[..|root|] == (root + [n])[..|root|];
    assert p[|root|] == p[..|root| + 1][|root|];
  }

  lemma {:induction false} WalkRemovesOnlyTree(root: Path, d: Entry, p: Path)
    requires d.Dir? && p in PathSet(Removals(Walk(root, d)))
    ensures StrictPrefix(root, p) && InTree(d, p[|root|..])
    decreases d
  {
    WalkPaths(root, d, p);
    if j :| 0 <= j < |d.entries| && p == root + [d.entries[j].name] {
      assert p[|root|..] == [d.entries[j].name];
    } else {
      var j :| 0 <= j < |d.entries| && d.entries[j].Dir?
               && p in PathSet(Removals(Walk(root + [d.entries[j].name], d.entries[j])));
      var c := d.entries[j];
      WalkRemovesOnlyTree(root + [c.name], c, p);
      ChildPath(root, c.name, p);
      var q := p[|root|..];
      assert 0 <= j < |d.entries| && d.entries[j].name == q[0] && InTree(d.entries[j], q[1..]);
    }
  }

  lemma {:induction false} WalkRemovesWholeTree(root: Path, d: Entry, p: Path)
    requires d.Dir? && StrictPrefix(root, p) && InTree(d, p[|root|..])
    ensures p in PathSet(Removals(Walk(root, d)))
    decreases d
  {
    var q := p[|root|..];
    var j :| 0 <= j < |d.entries| && d.entries[j].name == q[0] && (|q| == 1 || InTree(d.entries[j], q[1..]));
    var c := d.entries[j];
    assert p == root + q;
    if |q| == 1 {
      assert p == root + [c.name];
    } else {
      assert p[..|root| + 1] == root + [c.name];
      assert p[|root| + 1..] == q[1..];
      WalkRemovesWholeTree(root + [c.name], c, p);
    }
    WalkPaths(root, d, p);
  }

  /** Coverage from the partition directory: the walk removes exactly the entries of the tree. */
  lemma RootCovers(tree: Entry, p: Path)
    requires tree.Dir?
    ensures p in PathSet(Removals(Walk([], tree))) <==> p != [] && InTree(tree, p)
  {
    WalkCovers([], tree, p);
    assert p[0..] == p;
  }

  lemma WalkPrefix(walk: seq<WalkStep>, w: nat)
    requires w <= |walk|
    ensures |Removals(walk[..w])| <= |Removals(walk)|
    ensures Removals(walk)[..|Removals(walk[..w])|] == Removals(walk[..w])
  {
    assert walk == walk[..w] + walk[w..];
    RemovalsAppend(walk[..w], walk[w..]);
  }

  lemma StepAt(walk: seq<WalkStep>, w: nat)
    requires w < |walk|
    ensures Removals(walk[..w + 1]) == Removals(walk[..w]) + StepRemovals(walk[w])
  {
    assert walk[..w + 1][..w] == walk[..w];
  }

  /**
   * Before the `k`-th removal of the walk, with the first `k` done, its path is still present
   * and, when it is a directory, nothing beneath it is.
   */
  lemma StepReady(tree: Entry, present0: set<Path>, rs: seq<Removal>, k: nat)
    requires WellFormed(tree) && rs == Removals(Walk([], tree)) && k < |rs|
    requires forall p :: p in present0 <==> p == [] || InTree(tree, p)
    ensures rs[k].path in present0 - PathSet(rs[..k])
    ensures rs[k].RemoveDir? ==> forall q :: q in present0 - PathSet(rs[..k]) ==> !StrictPrefix(rs[k].path, q)
  {
    WalkBottomUp([], tree);
    RootCovers(tree, rs[k].path);
    NotDoneYet(rs, k, rs[k].path);
    forall q | q in present0 - PathSet(rs[..k]) && StrictPrefix(rs[k].path, q)
      ensures !rs[k].RemoveDir?
    {
      RootCovers(tree, q);
      NotBelowLater(rs, k, q);
    }
  }

  /** A path that no removal before `k` removes is not among the paths the first `k` removals remove. */
  lemma NotDoneYet(rs: seq<Removal>, k: nat, q: Path)
    requires k < |rs| && forall i, j :: 0 <= i < j < |rs| ==> rs[i].path != rs[j].path
    requires q == rs[k].path
    ensures q !in PathSet(rs[..k])
  {
    forall m | 0 <= m < k
      ensures rs[..k][m].path != q
    {
      assert rs[..k][m] == rs[m];
    }
  }

  /** In a bottom-up sequence, nothing still to be removed after removal `k` lies beneath a directory removed at `k`. */
  lemma NotBelowLater(rs: seq<Removal>, k: nat, q: Path)
    requires BottomUp(rs) && k < |rs|
    requires q in PathSet(rs) && q !in PathSet(rs[..k])
    ensures rs[k].RemoveDir? ==> !StrictPrefix(rs[k].path, q)
  {
    forall m | 0 <= m < k
      ensures rs[m].path != q
    {
      assert rs[..k][m] == rs[m];
    }
    var m :| 0 <= m < |rs| && rs[m].path == q;
  }

  /**
   * The filesystem under the partition directory: the paths present (the directory itself is
   * `[]`) and every removal done, oldest first.
   */
  class Volume {
    var present: set<Path>
    var log: seq<Removal>

    /** A volume holding the directory and exactly the entries of `tree`. */
    constructor (tree: Entry)
      requires tree.Dir?
      ensures forall p :: p in present <==> p == [] || InTree(tree, p)
      ensures log == []
    {
      present := {[]} + PathSet(Removals(Walk([], tree)));
      log := [];
      new;
      forall p
        ensures p in present <==> p == [] || InTree(tree, p)
      {
        RootCovers(tree, p);
      }
    }

    /** The walk has done its first `k` removals of `rs`, each allowed by `ok`. */
    ghost predicate Progress(present0: set<Path>, log0: seq<Removal>, rs: seq<Removal>, k: nat, ok: nat -> bool)
      reads this
    {
      k <= |rs| && log == log0 + rs[..k] && present == present0 - PathSet(rs[..k])
      && forall j :: 0 <= j < k ==> ok(j)
    }

    /**
     * `os.remove(path)` for a file, `os.rmdir(path)` for a directory, as the `k`-th call of the
     * walk. It fails when `ok(k)` does not hold, when the path is not there, and, for a
     * directory, when anything beneath it is still there.
     */
    method Remove(op: Removal, k: nat, ok: nat -> bool) returns (done: bool)
      modifies this
      ensures done <==> ok(k) && op.path in old(present)
                        && (op.RemoveDir? ==> forall q :: q in old(present) ==> !StrictPrefix(op.path, q))
      ensures done ==> present == old(present) - {op.path} && log == old(log) + [op]
      ensures !done ==> present == old(present) && log == old(log)
    {
      var blocked := op.RemoveDir? && exists q :: q in present && StrictPrefix(op.path, q);
      if ok(k) && op.path in present && !blocked {
        present := present - {op.path};
        log := log + [op];
        done := true;
      } else {
        done := false;
      }
    }

    /** The `k`-th removal of the walk: it succeeds exactly when `ok(k)`, and then the walk has progressed by one. */
    method Attempt(op: Removal, k: nat, ok: nat -> bool, ghost tree: Entry, ghost present0: set<Path>,
                   ghost log0: seq<Removal>, ghost rs: seq<Removal>) returns (done: bool)
      requires WellFormed(tree) && rs == Removals(Walk([], tree))
      requires forall p :: p in present0 <==> p == [] || InTree(tree, p)
      requires Progress(present0, log0, rs, k, ok) && k < |rs| && rs[k] == op
      modifies this
      ensures done == ok(k)
      ensures done ==> Progress(present0, log0, rs, k + 1, ok)
      ensures !done ==> present == old(present) && log == old(log)
    {
      StepReady(tree, present0, rs, k);
      done := Remove(op, k, ok);
      if done {
        assert rs[..k + 1] == rs[..k] + [op];
        PathSetAppend(rs[..k], [op]);
      }
    }

    /** The `for name in files` loop: `os.remove` on each file of a step, as removals `k`, `k + 1`, ... of the walk. */
    method RemoveFiles(step: WalkStep, k: nat, ok: nat -> bool, ghost tree: Entry, ghost present0: set<Path>,
                       ghost log0: seq<Removal>, ghost rs: seq<Removal>) returns (done: bool, next: nat)
      requires WellFormed(tree) && rs == Removals(Walk([], tree))
      requires forall p :: p in present0 <==> p == [] || InTree(tree, p)
      requires Progress(present0, log0, rs, k, ok)
      requires k + |step.files| <= |rs|
      requires forall x :: 0 <= x < |step.files| ==> rs[k + x] == RemoveFile(step.root + [step.files[x]])
      modifies this
      ensures k <= next <= k + |step.files| && Progress(present0, log0, rs, next, ok)
      ensures done <==> next == k + |step.files|
      ensures !done ==> !ok(next)
    {
      next := k;
      var f := 0;
      while f < |step.files|
        invariant f <= |step.files| && next == k + f
        invariant Progress(present0, log0, rs, next, ok)
      {
        done := Attempt(RemoveFile(step.root + [step.files[f]]), next, ok, tree, present0, log0, rs);
        if !done {
          return;
        }
        next := next + 1;
        f := f + 1;
      }
      done := true;
    }

    /** The `for name in dirs` loop: `os.rmdir` on each subdirectory of a step, as removals `k`, `k + 1`, ... */
    method RemoveDirs(step: WalkStep, k: nat, ok: nat -> bool, ghost tree: Entry, ghost present0: set<Path>,
                      ghost log0: seq<Removal>, ghost rs: seq<Removal>) returns (done: bool, next: nat)
      requires WellFormed(tree) && rs == Removals(Walk([], tree))
      requires forall p :: p in present0 <==> p == [] || InTree(tree, p)
      requires Progress(present0, log0, rs, k, ok)
      requires k + |step.dirs| <= |rs|
      requires forall x :: 0 <= x < |step.dirs| ==> rs[k + x] == RemoveDir(step.root + [step.dirs[x]])
      modifies this
      ensures k <= next <= k + |step.dirs| && Progress(present0, log0, rs, next, ok)
      ensures done <==> next == k + |step.dirs|
      ensures !done ==> !ok(next)
    {
      next := k;
      var g := 0;
      while g < |step.dirs|
        invariant g <= |step.dirs| && next == k + g
        invariant Progress(present0, log0, rs, next, ok)
      {
        done := Attempt(RemoveDir(step.root + [step.dirs[g]]), next, ok, tree, present0, log0, rs);
        if !done {
          return;
        }
        next := next + 1;
        g := g + 1;
      }
      done := true;
    }

    /**
     * One step of the walk: remove the files of `step`, then its subdirectories, as removals
     * `k`, `k + 1`, ... of the walk. Stops at the first failure, at removal `next`.
     */
    method RemoveStep(step: WalkStep, k: nat, ok: nat -> bool, ghost tree: Entry, ghost present0: set<Path>,
                      ghost log0: seq<Removal>, ghost rs: seq<Removal>) returns (done: bool, next: nat)
      requires WellFormed(tree) && rs == Removals(Walk([], tree))
      requires forall p :: p in present0 <==> p == [] || InTree(tree, p)
      requires Progress(present0, log0, rs, k, ok)
      requires k + |StepRemovals(step)| <= |rs| && rs[k..k + |StepRemovals(step)|] == StepRemovals(step)
      modifies this
      ensures k <= next <= k + |StepRemovals(step)| && Progress(present0, log0, rs, next, ok)
      ensures done <==> next == k + |StepRemovals(step)|
      ensures !done ==> !ok(next)
    {
      ghost var ops := StepRemovals(step);
      var nf := |step.files|;
      forall x | 0 <= x < nf
        ensures rs[k + x] == RemoveFile(step.root + [step.files[x]])
      {
        assert rs[k + x] == rs[k..k + |ops|][x];
      }
      forall x | 0 <= x < |step.dirs|
        ensures rs[k + nf + x] == RemoveDir(step.root + [step.dirs[x]])
      {
        assert rs[k + nf + x] == rs[k..k + |ops|][nf + x];
      }
      done, next := RemoveFiles(step, k, ok, tree, present0, log0, rs);
      if done {
        done, next := RemoveDirs(step, k + nf, ok, tree, present0, log0, rs);
      }
    }

    /** The `for root, dirs, files in os.walk(path, topdown=False)` loop, up to the first failed removal `k`. */
    method RemoveWalk(walk: seq<WalkStep>, ok: nat -> bool, ghost tree: Entry, ghost present0: set<Path>,
                      ghost log0: seq<Removal>, ghost rs: seq<Removal>) returns (done: bool, k: nat)
      requires WellFormed(tree) && walk == Walk([], tree) && rs == Removals(walk)
      requires forall p :: p in present0 <==> p == [] || InTree(tree, p)
      requires Progress(present0, log0, rs, 0, ok)
      modifies this
      ensures Progress(present0, log0, rs, k, ok)
      ensures done <==> k == |rs|
      ensures !done ==> !ok(k)
    {
      k := 0;
      var w := 0;
      while w < |walk|
        invariant w <= |walk|
        invariant k == |Removals(walk[..w])| && Progress(present0, log0, rs, k, ok)
        invariant rs[..k] == Removals(walk[..w])
      {
        WalkPrefix(walk, w + 1);
        StepAt(walk, w);
        ghost var n := |StepRemovals(walk[w])|;
        assert rs[k..k + n] == rs[..k + n][k..];
        done, k := RemoveStep(walk[w], k, ok, tree, present0, log0, rs);
        if !done {
          WalkPrefix(walk, w + 1);
          return;
        }
        w := w + 1;
      }
      assert walk[..w] == walk;
      done := true;
    }

    /**
     * `wipe_partition(path)` on the directory holding `tree`: walk it bottom-up and remove each
     * directory's files, then its subdirectories. The `k`-th removal succeeds exactly when
     * `ok(k)`; the first failure ends the wipe with `false`, leaving what is removed removed.
     */
    method WipePartition(tree: Entry, ok: nat -> bool) returns (success: bool)
      requires WellFormed(tree)
      requires forall p :: p in present <==> p == [] || InTree(tree, p)
      modifies this
      ensures var rs := Removals(Walk([], tree)); var k := Completed(ok, |rs|);
        log == old(log) + rs[..k] && present == old(present) - PathSet(rs[..k]) && success == (k == |rs|)
      ensures success ==> present == {[]}
      ensures [] in present
    {
      var walk := Walk([], tree);
      ghost var rs := Removals(walk);
      ghost var present0 := present;
      assert rs[..0] == [];
      var done, k := RemoveWalk(walk, ok, tree, present, log, rs);
      RootCovers(tree, []);
      if !done {
        CompletedAt(ok, |rs|, k);
        return false;
      }
      assert rs[..k] == rs;
      OnlyRootLeft(tree, present0);
      return true;
    }
  }

  /** Once every removal of the walk is done, only the partition directory itself is left. */
  lemma OnlyRootLeft(tree: Entry, present0: set<Path>)
    requires tree.Dir?
    requires forall p :: p in present0 <==> p == [] || InTree(tree, p)
    ensures present0 - PathSet(Removals(Walk([], tree))) == {[]}
  {
    forall p | p in present0 - PathSet(Removals(Walk([], tree)))
      ensures p == []
    {
      RootCovers(tree, p);
    }
    RootCovers(tree, []);
  }
}
