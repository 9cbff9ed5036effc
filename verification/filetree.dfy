/**
 * The filesystem the link validator consults, as an immutable tree of
 * directories.  Each directory lists its regular files and its
 * sub-directories in the order `os.scandir` returns them, so `os.walk`
 * becomes a pure function of the tree.  Existence checks follow the
 * operating system: ".." in a path steps to the parent of a directory that
 * really exists, and a file cannot be passed through.
 */
module FileTree {
  import opened Wrappers
  import opened Paths

  /** A directory: its name, the names of the files in it and its
      sub-directories, each in listing order. */
  datatype Node = Node(name: Name, files: seq<Name>, dirs: seq<Node>)

  /** A directory tree a real filesystem can hold: entry names are plain,
      and no two entries of one directory, files or sub-directories, share
      a name. */
  predicate WellFormed(n: Node)
    decreases n
  {
    && (forall i, j :: 0 <= i < j < |n.dirs| ==> n.dirs[i].name != n.dirs[j].name)
    && (forall i, j :: 0 <= i < j < |n.files| ==> n.files[i] != n.files[j])
    && (forall i, j :: 0 <= i < |n.files| && 0 <= j < |n.dirs| ==> n.files[i] != n.dirs[j].name)
    && (forall i :: 0 <= i < |n.files| ==> PlainName(n.files[i]))
    && (forall i :: 0 <= i < |n.dirs| ==> PlainName(n.dirs[i].name) && WellFormed(n.dirs[i]))
  }

  /** The first sub-directory with the given name. */
  function ChildNamed(ds: seq<Node>, name: Name): (r: Option<Node>)
    ensures r.Some? ==> r.value in ds && r.value.name == name
    ensures r.None? <==> forall i :: 0 <= i < |ds| ==> ds[i].name != name
  {
    if ds == [] then None
    else if ds[0].name == name then Some(ds[0])
    else ChildNamed(ds[1..], name)
  }

  /** The directory reached from `n` by the plain components `rel`. */
  function Lookup(n: Node, rel: Path): Option<Node>
    decreases |rel|
  {
    if rel == [] then Some(n)
    else match ChildNamed(n.dirs, rel[0])
      case None => None
      case Some(c) => Lookup(c, rel[1..])
  }

  predicate IsDirAt(root: Node, p: Path)
  {
    Lookup(root, p).Some?
  }

  predicate IsFileAt(root: Node, p: Path)
  {
    p != [] && Lookup(root, Parent(p)).Some? && LastName(p) in Lookup(root, Parent(p)).value.files
  }

  /** Resolution by the operating system of the components `segs` from the
      existing directory `cur`: the path it reaches, if it exists. */
  function ResolveFrom(root: Node, cur: Path, segs: seq<Name>): Option<Path>
    decreases |segs|
  {
    if segs == [] then Some(cur)
    else if segs[0] == ".." then ResolveFrom(root, Parent(cur), segs[1..])
    else
      var next := cur + [segs[0]];
      if |segs| == 1 then
        if IsDirAt(root, next) || IsFileAt(root, next) then Some(next) else None
      else if IsDirAt(root, next) then ResolveFrom(root, next, segs[1..])
      else None
  }

  function Resolve(root: Node, p: seq<Name>): Option<Path>
  {
    ResolveFrom(root, [], p)
  }

  /** `Path.exists()`. */
  predicate Exists(root: Node, p: seq<Name>)
  {
    Resolve(root, p).Some?
  }

  /** `Path.is_dir()`. */
  predicate IsDir(root: Node, p: seq<Name>)
  {
    Resolve(root, p).Some? && IsDirAt(root, Resolve(root, p).value)
  }

  /** No entry name in the tree contains `c`. */
  predicate FreeOf(n: Node, c: char)
    decreases n
  {
    && (forall i :: 0 <= i < |n.files| ==> c !in n.files[i])
    && (forall i :: 0 <= i < |n.dirs| ==> c !in n.dirs[i].name && FreeOf(n.dirs[i], c))
  }

  /** One tuple of `os.walk`: a directory and the files in it. */
  datatype Step = Step(dir: Path, files: seq<Name>)

  /** `os.walk` from `n`, which sits at `at`, top-down, descending only into
      the sub-directories whose names `descend` accepts (the caller's
      rewriting of `dirs`). */
  function WalkNode(n: Node, at: Path, descend: Name -> bool): seq<Step>
    decreases n, |n.dirs| + 1
  {
    [Step(at, n.files)] + WalkDirs(n, 0, at, descend)
  }

  function WalkDirs(n: Node, i: nat, at: Path, descend: Name -> bool): seq<Step>
    decreases n, |n.dirs| - i
  {
    if i >= |n.dirs| then []
    else
      (if descend(n.dirs[i].name) then WalkNode(n.dirs[i], at + [n.dirs[i].name], descend) else [])
      + WalkDirs(n, i + 1, at, descend)
  }

  /** `os.walk(top)`: nothing when `top` is not a directory. */
  function Walk(root: Node, top: Path, descend: Name -> bool): seq<Step>
  {
    match Lookup(root, top)
    case Some(n) => WalkNode(n, top, descend)
    case None => []
  }

  predicate Descends(rel: Path, descend: Name -> bool)
  {
    forall k :: 0 <= k < |rel| ==> descend(rel[k])
  }

  /** What a walk step below `n` (at `at`) says: a directory under `at`,
      reached through accepted names, with exactly its files. */
  predicate StepOf(n: Node, at: Path, s: Step, descend: Name -> bool)
  {
    && IsPrefix(at, s.dir)
    && Lookup(n, s.dir[|at|..]).Some?
    && Lookup(n, s.dir[|at|..]).value.files == s.files
    && Descends(s.dir[|at|..], descend)
  }

  // ---------------------------------------------------------------------
  // Lemmas

  lemma ChildNamedUnique(ds: seq<Node>, j: nat)
    requires j < |ds|
    requires forall a, b :: 0 <= a < b < |ds| ==> ds[a].name != ds[b].name
    ensures ChildNamed(ds, ds[j].name) == Some(ds[j])
  {
    if j > 0 {
      ChildNamedUnique(ds[1..], j - 1);
    }
  }

  lemma {:induction false} LookupConcat(n: Node, a: Path, b: Path)
    ensures Lookup(n, a + b) == match Lookup(n, a) case Some(m) => Lookup(m, b) case None => None
    decreases |a|
  {
    if a == [] {
      assert a + b == b;
    } else {
      assert (a + b)[0] == a[0];
      assert (a + b)[1..] == a[1..] + b;
      match ChildNamed(n.dirs, a[0])
      case None =>
      case Some(c) => LookupConcat(c, a[1..], b);
    }
  }

  lemma {:induction false} LookupWellFormed(n: Node, rel: Path)
    requires WellFormed(n) && Lookup(n, rel).Some?
    ensures WellFormed(Lookup(n, rel).value)
    decreases |rel|
  {
    if rel != [] {
      var c := ChildNamed(n.dirs, rel[0]).value;
      var j :| 0 <= j < |n.dirs| && n.dirs[j] == c;
      LookupWellFormed(c, rel[1..]);
    }
  }

  /** Every prefix of an existing directory is an existing directory. */
  lemma DirPrefix(root: Node, a: Path, p: Path)
    requires IsDirAt(root, p) && IsPrefix(a, p)
    ensures IsDirAt(root, a)
  {
    LookupConcat(root, a, p[|a|..]);
    assert a + p[|a|..] == p;
  }

  /** Resolution agrees with `os.path.normpath`: where a path exists, it
      resolves to its normal form. */
  lemma {:induction false} ResolveIsNormalize(root: Node, cur: Path, segs: seq<Name>)
    requires ResolveFrom(root, cur, segs).Some?
    ensures ResolveFrom(root, cur, segs).value == NormalizeFrom(cur, segs)
    decreases |segs|
  {
    if segs != [] {
      if segs[0] == ".." {
        ResolveIsNormalize(root, Parent(cur), segs[1..]);
      } else if |segs| > 1 {
        ResolveIsNormalize(root, cur + [segs[0]], segs[1..]);
      }
    }
  }

  /** What a path resolves to is a directory or a file of the tree. */
  lemma {:induction false} ResolvedIsEntry(root: Node, cur: Path, segs: seq<Name>)
    requires IsDirAt(root, cur)
    requires ResolveFrom(root, cur, segs).Some?
    ensures IsDirAt(root, ResolveFrom(root, cur, segs).value) || IsFileAt(root, ResolveFrom(root, cur, segs).value)
    decreases |segs|
  {
    if segs != [] {
      if segs[0] == ".." {
        if cur != [] {
          DirPrefix(root, Parent(cur), cur);
        }
        ResolvedIsEntry(root, Parent(cur), segs[1..]);
      } else if |segs| > 1 {
        ResolvedIsEntry(root, cur + [segs[0]], segs[1..]);
      }
    }
  }

  /** A plain path to a directory or file of the tree exists and resolves
      to itself. */
  lemma {:induction false} PlainEntryResolves(root: Node, cur: Path, segs: seq<Name>)
    requires AllPlain(segs)
    requires IsDirAt(root, cur + segs) || IsFileAt(root, cur + segs)
    ensures ResolveFrom(root, cur, segs) == Some(cur + segs)
    decreases |segs|
  {
    if segs == [] {
      assert cur + segs == cur;
    } else if |segs| > 1 {
      var next := cur + [segs[0]];
      assert next + segs[1..] == cur + segs;
      assert IsDirAt(root, next) by {
        var full := cur + segs;
        assert IsPrefix(next, Parent(full));
        if IsDirAt(root, full) {
          DirPrefix(root, Parent(full), full);
        }
        DirPrefix(root, next, Parent(full));
      }
      PlainEntryResolves(root, next, segs[1..]);
    } else {
      assert cur + segs == cur + [segs[0]];
    }
  }

  /** Every step of a walk below a well-formed `n` names a directory under
      `at`, reached only through accepted names, with its files. */
  lemma {:induction false} WalkNodeSound(n: Node, at: Path, descend: Name -> bool)
    requires WellFormed(n)
    ensures forall s :: s in WalkNode(n, at, descend) ==> StepOf(n, at, s, descend)
    decreases n, |n.dirs| + 1
  {
    assert at[|at|..] == [];
    WalkDirsSound(n, 0, at, descend);
  }

  lemma {:induction false} WalkDirsSound(n: Node, i: nat, at: Path, descend: Name -> bool)
    requires WellFormed(n)
    ensures forall s :: s in WalkDirs(n, i, at, descend) ==> StepOf(n, at, s, descend)
    decreases n, |n.dirs| - i
  {
    hide StepOf, WalkNode;
    if i < |n.dirs| {
      var c := n.dirs[i];
      WalkDirsSound(n, i + 1, at, descend);
      if descend(c.name) {
        var at' := at + [c.name];
        WalkNodeSound(c, at', descend);
        ChildNamedUnique(n.dirs, i);
        forall s | s in WalkNode(c, at', descend)
          ensures StepOf(n, at, s, descend)
        {
          StepOfChild(n, c, at, s, descend);
        }
      }
    }
  }

  /** A step below a sub-directory `c` of `n` is a step below `n`. */
  lemma StepOfChild(n: Node, c: Node, at: Path, s: Step, descend: Name -> bool)
    requires ChildNamed(n.dirs, c.name) == Some(c) && descend(c.name)
    requires StepOf(c, at + [c.name], s, descend)
    ensures StepOf(n, at, s, descend)
  {
    var rel := s.dir[|at| + 1..];
    assert s.dir[|at|..] == [c.name] + rel;
    assert Lookup(n, [c.name] + rel) == Lookup(c, rel);
  }

  /** No two steps of a walk name the same directory. */
  predicate DistinctDirs(steps: seq<Step>)
  {
    forall a, b :: 0 <= a < b < |steps| ==> steps[a].dir != steps[b].dir
  }

  /** No name is listed twice. */
  predicate DistinctNames(names: seq<Name>)
  {
    forall a, b :: 0 <= a < b < |names| ==> names[a] != names[b]
  }

  lemma DistinctDirsConcat(x: seq<Step>, y: seq<Step>)
    requires DistinctDirs(x) && DistinctDirs(y)
    requires forall a, b :: 0 <= a < |x| && 0 <= b < |y| ==> x[a].dir != y[b].dir
    ensures DistinctDirs(x + y)
  {
    forall a, b | 0 <= a < b < |x + y|
      ensures (x + y)[a].dir != (x + y)[b].dir
    {
      if b < |x| {
        assert (x + y)[a] == x[a] && (x + y)[b] == x[b];
      } else if a < |x| {
        assert (x + y)[a] == x[a] && (x + y)[b] == y[b - |x|];
      } else {
        assert (x + y)[a] == y[a - |x|] && (x + y)[b] == y[b - |x|];
      }
    }
  }

  /** A walk below a well-formed `n` visits each directory once, every
      directory it visits lies under `at`, and no step lists a file twice. */
  lemma {:induction false} WalkNodeDistinct(n: Node, at: Path, descend: Name -> bool)
    requires WellFormed(n)
    ensures DistinctDirs(WalkNode(n, at, descend))
    ensures forall s :: s in WalkNode(n, at, descend) ==> IsPrefix(at, s.dir) && DistinctNames(s.files)
    decreases n, |n.dirs| + 1
  {
    hide WalkDirs;
    WalkDirsDistinct(n, 0, at, descend);
    var rest := WalkDirs(n, 0, at, descend);
    DistinctDirsConcat([Step(at, n.files)], rest);
  }

  lemma {:induction false} WalkDirsDistinct(n: Node, i: nat, at: Path, descend: Name -> bool)
    requires WellFormed(n)
    ensures DistinctDirs(WalkDirs(n, i, at, descend))
    ensures forall s :: s in WalkDirs(n, i, at, descend) ==>
      && |at| < |s.dir| && s.dir[..|at|] == at && DistinctNames(s.files)
      && exists k :: i <= k < |n.dirs| && s.dir[|at|] == n.dirs[k].name
    decreases n, |n.dirs| - i
  {
    hide WalkNode, DistinctNames;
    if i < |n.dirs| {
      var c := n.dirs[i];
      var at' := at + [c.name];
      var x := if descend(c.name) then WalkNode(c, at', descend) else [];
      var y := WalkDirs(n, i + 1, at, descend);
      assert WalkDirs(n, i, at, descend) == x + y;
      WalkDirsDistinct(n, i + 1, at, descend);
      if descend(c.name) {
        WalkNodeDistinct(c, at', descend);
      }
      forall s | s in x
        ensures |at| < |s.dir| && s.dir[..|at|] == at && s.dir[|at|] == c.name && DistinctNames(s.files)
      {
        assert s.dir[..|at'|] == at';
        assert s.dir[..|at|] == at'[..|at|];
      }
      forall a, b | 0 <= a < |x| && 0 <= b < |y|
        ensures x[a].dir != y[b].dir
      {
        assert x[a] in x && y[b] in y;
        var k :| i + 1 <= k < |n.dirs| && y[b].dir[|at|] == n.dirs[k].name;
      }
      DistinctDirsConcat(x, y);
    }
  }

  /** Every directory under `n` reached through accepted names is a step of
      the walk. */
  lemma {:induction false} WalkNodeComplete(n: Node, at: Path, descend: Name -> bool, rel: Path)
    requires Lookup(n, rel).Some? && Descends(rel, descend)
    ensures Step(at + rel, Lookup(n, rel).value.files) in WalkNode(n, at, descend)
    decreases |rel|
  {
    if rel == [] {
      assert at + rel == at;
    } else {
      var c := ChildNamed(n.dirs, rel[0]).value;
      var j :| 0 <= j < |n.dirs| && n.dirs[j] == c;
      WalkNodeComplete(c, at + [rel[0]], descend, rel[1..]);
      assert at + [rel[0]] + rel[1..] == at + rel;
      WalkDirsContains(n, 0, at, descend, j);
    }
  }

  lemma {:induction false} WalkDirsContains(n: Node, i: nat, at: Path, descend: Name -> bool, j: nat)
    requires i <= j < |n.dirs| && descend(n.dirs[j].name)
    ensures forall s :: s in WalkNode(n.dirs[j], at + [n.dirs[j].name], descend) ==> s in WalkDirs(n, i, at, descend)
    decreases j - i
  {
    var inner := WalkNode(n.dirs[j], at + [n.dirs[j].name], descend);
    var head := if descend(n.dirs[i].name) then WalkNode(n.dirs[i], at + [n.dirs[i].name], descend) else [];
    assert WalkDirs(n, i, at, descend) == head + WalkDirs(n, i + 1, at, descend);
    hide WalkNode, WalkDirs;
    if i < j {
      WalkDirsContains(n, i + 1, at, descend, j);
    } else {
      assert head == inner;
    }
  }

  /** `os.walk(top)` over a well-formed tree yields exactly the directories
      under `top` reached through accepted names, each with its files. */
  lemma WalkSound(root: Node, top: Path, descend: Name -> bool, s: Step)
    requires WellFormed(root) && s in Walk(root, top, descend)
    ensures IsPrefix(top, s.dir) && IsDirAt(root, s.dir)
    ensures Lookup(root, s.dir).value.files == s.files
    ensures Descends(s.dir[|top|..], descend)
  {
    var n := Lookup(root, top).value;
    LookupWellFormed(root, top);
    WalkNodeSound(n, top, descend);
    assert StepOf(n, top, s, descend);
    LookupConcat(root, top, s.dir[|top|..]);
    assert top + s.dir[|top|..] == s.dir;
  }

  /** `os.walk` over a well-formed tree visits each directory once, and
      no step lists a file twice. */
  lemma WalkDistinct(root: Node, top: Path, descend: Name -> bool)
    requires WellFormed(root)
    ensures DistinctDirs(Walk(root, top, descend))
    ensures forall s :: s in Walk(root, top, descend) ==> DistinctNames(s.files)
  {
    if Lookup(root, top).Some? {
      LookupWellFormed(root, top);
      WalkNodeDistinct(Lookup(root, top).value, top, descend);
    }
  }

  lemma WalkComplete(root: Node, top: Path, descend: Name -> bool, d: Path)
    requires IsDirAt(root, d) && IsPrefix(top, d) && Descends(d[|top|..], descend)
    ensures Step(d, Lookup(root, d).value.files) in Walk(root, top, descend)
  {
    var rel := d[|top|..];
    assert top + rel == d;
    LookupConcat(root, top, rel);
    WalkNodeComplete(Lookup(root, top).value, top, descend, rel);
  }

  /** The path of a directory of a well-formed tree is made of plain names
      drawn from the tree. */
  lemma {:induction false} LookupPlain(n: Node, p: Path, c: char)
    requires WellFormed(n) && FreeOf(n, c) && Lookup(n, p).Some?
    ensures AllPlain(p) && forall i :: 0 <= i < |p| ==> c !in p[i]
    ensures WellFormed(Lookup(n, p).value) && FreeOf(Lookup(n, p).value, c)
    decreases |p|
  {
    hide ChildNamed;
    if p != [] {
      var child := ChildNamed(n.dirs, p[0]).value;
      var j :| 0 <= j < |n.dirs| && n.dirs[j] == child;
      assert PlainName(child.name) && WellFormed(child) && c !in child.name && FreeOf(child, c);
      LookupPlain(child, p[1..], c);
      assert Lookup(n, p) == Lookup(child, p[1..]);
      assert forall i :: 1 <= i < |p| ==> p[i] == p[1..][i - 1];
    }
  }

  /** The same for the path of any file or directory of the tree. */
  lemma EntryPlain(root: Node, p: Path, c: char)
    requires WellFormed(root) && FreeOf(root, c)
    requires IsDirAt(root, p) || IsFileAt(root, p)
    ensures AllPlain(p) && forall i :: 0 <= i < |p| ==> c !in p[i]
  {
    if IsDirAt(root, p) {
      LookupPlain(root, p, c);
    } else {
      LookupPlain(root, Parent(p), c);
      var d := Lookup(root, Parent(p)).value;
      var j :| 0 <= j < |d.files| && d.files[j] == LastName(p);
      assert p == Parent(p) + [LastName(p)];
    }
  }
}
