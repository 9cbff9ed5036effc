/**
 * `find_markdown_files`, the same in both batch drivers: a top-down
 * `os.walk` that prunes hidden directories and `node_modules`, collecting
 * the files whose names end in ".md"; and the choice of the directory to
 * scan.
 */
module Discovery {
  import opened Text
  import opened Paths
  import opened FileTree

  /** The `dirs[:] = [...]` filter: a directory is entered unless its name
      starts with "." or is "node_modules". */
  predicate Keep(n: Name)
  {
    !StartsWith(n, ".") && n != "node_modules"
  }

  predicate IsMarkdown(file: Name)
  {
    EndsWith(file, ".md")
  }

  /** `root / file` for the Markdown files of one step, in listing order. */
  function MarkdownOf(dir: Path, files: seq<Name>): seq<Path>
  {
    if files == [] then []
    else
      var last := files[|files| - 1];
      MarkdownOf(dir, files[..|files| - 1]) + (if IsMarkdown(last) then [dir + [last]] else [])
  }

  /** The Markdown files of a sequence of walk steps, in walk order. */
  function MarkdownIn(steps: seq<Step>): seq<Path>
  {
    if steps == [] then []
    else
      var last := steps[|steps| - 1];
      MarkdownIn(steps[..|steps| - 1]) + MarkdownOf(last.dir, last.files)
  }

  /** What `find_markdown_files(directory)` returns. */
  function MarkdownFiles(fs: Node, directory: Path): seq<Path>
  {
    MarkdownIn(Walk(fs, directory, Keep))
  }

  /** `find_markdown_files`: the walk loop with the inner loop over files. */
  method FindMarkdownFiles(fs: Node, directory: Path) returns (markdownFiles: seq<Path>)
    ensures markdownFiles == MarkdownFiles(fs, directory)
  {
    var steps := Walk(fs, directory, Keep);
    markdownFiles := [];
    for i := 0 to |steps|
      invariant markdownFiles == MarkdownIn(steps[..i])
    {
      var root := steps[i].dir;
      var files := steps[i].files;
      ghost var before := markdownFiles;
      for j := 0 to |files|
        invariant markdownFiles == before + MarkdownOf(root, files[..j])
      {
        assert files[..j + 1][..j] == files[..j];
        if IsMarkdown(files[j]) {
          markdownFiles := markdownFiles + [root + [files[j]]];
        }
      }
      assert files[..|files|] == files;
      assert steps[..i + 1][..i] == steps[..i];
    }
    assert steps[..|steps|] == steps;
  }

  /** `project_root / 'docs'` when it exists, else `project_root`. */
  function ScanRoot(fs: Node, cwd: Path): (r: Path)
    ensures r == cwd + ["docs"] || r == cwd
    ensures r == cwd + ["docs"] <==> Exists(fs, cwd + ["docs"])
  {
    if Exists(fs, cwd + ["docs"]) then cwd + ["docs"] else cwd
  }

  // ---------------------------------------------------------------------
  // Lemmas

  lemma {:induction false} MarkdownOfExactly(dir: Path, files: seq<Name>, p: Path)
    ensures p in MarkdownOf(dir, files) <==>
      p != [] && Parent(p) == dir && LastName(p) in files && IsMarkdown(LastName(p))
    decreases |files|
  {
    if files != [] {
      var init := files[..|files| - 1];
      var last := files[|files| - 1];
      MarkdownOfExactly(dir, init, p);
      assert files == init + [last];
      if p != [] && Parent(p) == dir {
        assert p == dir + [LastName(p)];
      }
    }
  }

  lemma {:induction false} MarkdownInExactly(steps: seq<Step>, p: Path)
    ensures p in MarkdownIn(steps) <==>
      exists s :: s in steps && p in MarkdownOf(s.dir, s.files)
    decreases |steps|
  {
    if steps != [] {
      var init := steps[..|steps| - 1];
      var last := steps[|steps| - 1];
      MarkdownInExactly(init, p);
      assert steps == init + [last];
    }
  }

  /** `find_markdown_files` returns exactly the ".md" files lying in a
      directory under `directory` that is reached without passing through
      a hidden directory or `node_modules`. */
  lemma MarkdownFilesExactly(fs: Node, directory: Path, p: Path)
    requires WellFormed(fs)
    ensures p in MarkdownFiles(fs, directory) <==>
      && p != [] && IsPrefix(directory, Parent(p)) && IsDirAt(fs, Parent(p))
      && LastName(p) in Lookup(fs, Parent(p)).value.files && IsMarkdown(LastName(p))
      && Descends(Parent(p)[|directory|..], Keep)
  {
    var steps := Walk(fs, directory, Keep);
    MarkdownInExactly(steps, p);
    if p in MarkdownFiles(fs, directory) {
      var s :| s in steps && p in MarkdownOf(s.dir, s.files);
      MarkdownOfExactly(s.dir, s.files, p);
      WalkSound(fs, directory, Keep, s);
    }
    if && p != [] && IsPrefix(directory, Parent(p)) && IsDirAt(fs, Parent(p))
       && LastName(p) in Lookup(fs, Parent(p)).value.files && IsMarkdown(LastName(p))
       && Descends(Parent(p)[|directory|..], Keep)
    {
      var d := Parent(p);
      WalkComplete(fs, directory, Keep, d);
      var s := Step(d, Lookup(fs, d).value.files);
      MarkdownOfExactly(s.dir, s.files, p);
    }
  }

  lemma {:induction false} MarkdownOfDistinct(dir: Path, files: seq<Name>)
    requires DistinctNames(files)
    ensures forall a, b :: 0 <= a < b < |MarkdownOf(dir, files)| ==> MarkdownOf(dir, files)[a] != MarkdownOf(dir, files)[b]
    decreases |files|
  {
    if files != [] {
      var init := files[..|files| - 1];
      var last := files[|files| - 1];
      assert DistinctNames(init);
      MarkdownOfDistinct(dir, init);
      assert last !in init;
      MarkdownOfExactly(dir, init, dir + [last]);
    }
  }

  /** Every file collected from a sequence of steps lies directly in the
      directory of one of them. */
  lemma MarkdownInDir(steps: seq<Step>, p: Path) returns (k: nat)
    requires p in MarkdownIn(steps)
    ensures k < |steps| && p != [] && Parent(p) == steps[k].dir
  {
    MarkdownInExactly(steps, p);
    var t :| t in steps && p in MarkdownOf(t.dir, t.files);
    MarkdownOfExactly(t.dir, t.files, p);
    k :| 0 <= k < |steps| && steps[k] == t;
  }

  lemma {:induction false} MarkdownInDistinct(steps: seq<Step>)
    requires DistinctDirs(steps) && forall s :: s in steps ==> DistinctNames(s.files)
    ensures forall a, b :: 0 <= a < b < |MarkdownIn(steps)| ==> MarkdownIn(steps)[a] != MarkdownIn(steps)[b]
    decreases |steps|
  {
    hide MarkdownOf;
    if steps != [] {
      var init := steps[..|steps| - 1];
      var last := steps[|steps| - 1];
      var x := MarkdownIn(init);
      var y := MarkdownOf(last.dir, last.files);
      assert MarkdownIn(steps) == x + y;
      hide MarkdownIn;
      assert DistinctDirs(init);
      MarkdownInDistinct(init);
      MarkdownOfDistinct(last.dir, last.files);
      forall a, b | 0 <= a < |x| && 0 <= b < |y|
        ensures x[a] != y[b]
      {
        var k := MarkdownInDir(init, x[a]);
        MarkdownOfExactly(last.dir, last.files, y[b]);
        assert steps[k] == init[k];
      }
      forall a, b | 0 <= a < b < |x + y|
        ensures (x + y)[a] != (x + y)[b]
      {
        if b < |x| {
          assert (x + y)[a] == x[a] && (x + y)[b] == x[b];
        } else if a < |x| {
          assert (x + y)[a] == x[a] && (x + y)[b] == y[b - |x|];
        } else {
          assert (x + y)[a] == y[a - |x|] && (x + y)[b] == y[b - |x|];
        }
      }
    }
  }

  /** `find_markdown_files` lists no file twice. */
  lemma MarkdownFilesDistinct(fs: Node, directory: Path)
    requires WellFormed(fs)
    ensures var ps := MarkdownFiles(fs, directory);
      forall a, b :: 0 <= a < b < |ps| ==> ps[a] != ps[b]
  {
    WalkDistinct(fs, directory, Keep);
    MarkdownInDistinct(Walk(fs, directory, Keep));
  }

  /** No file found lies below a directory whose name starts with "." or
      is "node_modules", counting from `directory` down. */
  lemma NeverBelowPruned(fs: Node, directory: Path, p: Path, k: nat)
    requires WellFormed(fs) && p in MarkdownFiles(fs, directory)
    requires |directory| <= k < |p| - 1
    ensures !StartsWith(p[k], ".") && p[k] != "node_modules"
  {
    MarkdownFilesExactly(fs, directory, p);
    var rel := Parent(p)[|directory|..];
    assert rel[k - |directory|] == p[k];
  }
}
