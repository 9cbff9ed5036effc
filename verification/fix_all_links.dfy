/**
 * `main` of the batch repair script: scan `docs/` under the working
 * directory (or the working directory itself), run one `LinkValidator` per
 * Markdown file found, sum the counters, list the files that still have
 * broken links and the files that were rewritten, and return 0 exactly
 * when no broken link was counted.
 */
module FixAllLinks {
  import opened Wrappers
  import opened Paths
  import opened FileTree
  import opened Process
  import opened Validator
  import opened Discovery
  import opened Batch

  /** The totals `main` prints and the status it returns. */
  datatype Report = Report(
    totalFiles: nat,
    totalLinks: nat,
    totalBroken: nat,
    totalFixed: nat,
    filesWithIssues: seq<(Path, nat)>,
    filesModified: seq<(Path, nat)>,
    exitCode: int)

  /** What `main` reports for working directory `cwd`, and the disk it
      leaves behind. */
  function Summary(disk: Disk, cwd: Path, dryRun: bool, unquote: string -> string): (Report, Disk)
  {
    var files := MarkdownFiles(disk.fs, ScanRoot(disk.fs, cwd));
    var r := Batch.Run(disk, files, dryRun, unquote);
    var t := Totals(r.1);
    (Report(|files|, t.total, t.broken, t.fixes, Issues(files, r.1), Modified(files, r.1, dryRun), ExitCode(t)), r.0)
  }

  /** `main()`: the scan and the loop over the files found.  The text each
      validator writes is applied to the disk before the next file is
      read. */
  method FixAll(disk: Disk, cwd: Path, dryRun: bool, unquote: string -> string) returns (report: Report, after: Disk)
    ensures (report, after) == Summary(disk, cwd, dryRun, unquote)
  {
    hide Validated, After, MarkdownFiles;
    var projectRoot := cwd;
    var docsDir: Path;
    if Exists(disk.fs, projectRoot + ["docs"]) {
      docsDir := projectRoot + ["docs"];
    } else {
      docsDir := projectRoot;
    }
    var markdownFiles := FindMarkdownFiles(disk.fs, docsDir);
    var totalFiles: nat, totalLinks: nat, totalBroken: nat, totalFixed: nat := 0, 0, 0, 0;
    var filesWithIssues: seq<(Path, nat)> := [];
    var filesModified: seq<(Path, nat)> := [];
    after := disk;
    for k := 0 to |markdownFiles|
      invariant var r := Batch.Run(disk, markdownFiles[..k], dryRun, unquote);
        var t := Totals(r.1);
        && after == r.0 && totalFiles == k
        && totalLinks == t.total && totalBroken == t.broken && totalFixed == t.fixes
        && filesWithIssues == Issues(markdownFiles[..k], r.1)
        && filesModified == Modified(markdownFiles[..k], r.1, dryRun)
    {
      RunStep(disk, markdownFiles, dryRun, unquote, k);
      var mdFile := markdownFiles[k];
      var success, counts;
      success, after, counts := ValidateOne(after, mdFile, dryRun, unquote);
      totalFiles := totalFiles + 1;
      totalLinks := totalLinks + counts.total;
      totalBroken := totalBroken + counts.broken;
      totalFixed := totalFixed + counts.fixes;
      if counts.broken > 0 {
        filesWithIssues := filesWithIssues + [(mdFile, counts.broken)];
      }
      if counts.fixes > 0 && !dryRun {
        filesModified := filesModified + [(mdFile, counts.fixes)];
      }
    }
    assert markdownFiles[..|markdownFiles|] == markdownFiles;
    report := Report(totalFiles, totalLinks, totalBroken, totalFixed, filesWithIssues, filesModified,
                     if totalBroken == 0 then 0 else 1);
  }

  // ---------------------------------------------------------------------
  // Lemmas

  /** The status is 0 or 1, and 0 exactly when no file is listed with
      broken links, that is when every validator counted none. */
  lemma ExitStatus(disk: Disk, cwd: Path, dryRun: bool, unquote: string -> string)
    ensures var rep := Summary(disk, cwd, dryRun, unquote).0;
      && (rep.exitCode == 0 || rep.exitCode == 1)
      && (rep.exitCode == 0 <==> rep.filesWithIssues == [])
      && (rep.exitCode == 0 <==> rep.totalBroken == 0)
  {
    var files := MarkdownFiles(disk.fs, ScanRoot(disk.fs, cwd));
    var r := Batch.Run(disk, files, dryRun, unquote);
    ExitZeroIff(files, r.1);
  }

  /** With `--dry-run` no file is written and none is listed as modified;
      the counters still count the links that would be fixed. */
  lemma DryRunChangesNothing(disk: Disk, cwd: Path, unquote: string -> string)
    ensures Summary(disk, cwd, true, unquote).1 == disk
    ensures Summary(disk, cwd, true, unquote).0.filesModified == []
  {
    var files := MarkdownFiles(disk.fs, ScanRoot(disk.fs, cwd));
    DryRunLeavesDisk(disk, files, unquote);
    DryRunModifiesNone(files, Batch.Run(disk, files, true, unquote).1);
  }

  /** A file is listed as still having issues, with count b, exactly when
      it is one of the files found and its validator counted b > 0 broken
      links. */
  lemma IssuesListed(disk: Disk, cwd: Path, dryRun: bool, unquote: string -> string, p: Path, b: nat)
    ensures var files := MarkdownFiles(disk.fs, ScanRoot(disk.fs, cwd));
      var os := Batch.Run(disk, files, dryRun, unquote).1;
      (p, b) in Summary(disk, cwd, dryRun, unquote).0.filesWithIssues <==>
        exists i :: 0 <= i < |files| && files[i] == p && os[i].tally.broken == b && b > 0
  {
    var files := MarkdownFiles(disk.fs, ScanRoot(disk.fs, cwd));
    IssuesExactly(files, Batch.Run(disk, files, dryRun, unquote).1, p, b);
  }

  /** A file is listed as modified, with count c, exactly when the run is
      not a dry run and its validator fixed c > 0 links. */
  lemma ModifiedListed(disk: Disk, cwd: Path, dryRun: bool, unquote: string -> string, p: Path, c: nat)
    ensures var files := MarkdownFiles(disk.fs, ScanRoot(disk.fs, cwd));
      var os := Batch.Run(disk, files, dryRun, unquote).1;
      (p, c) in Summary(disk, cwd, dryRun, unquote).0.filesModified <==>
        !dryRun && exists i :: 0 <= i < |files| && files[i] == p && os[i].tally.fixes == c && c > 0
  {
    var files := MarkdownFiles(disk.fs, ScanRoot(disk.fs, cwd));
    ModifiedExactly(files, Batch.Run(disk, files, dryRun, unquote).1, dryRun, p, c);
  }

  /** Every file found is validated as it was when `main` started, since
      `find_markdown_files` lists no file twice and a write touches only
      its own file; files not found keep their text. */
  lemma ReadsOriginals(disk: Disk, cwd: Path, dryRun: bool, unquote: string -> string)
    requires WellFormed(disk.fs)
    ensures var files := MarkdownFiles(disk.fs, ScanRoot(disk.fs, cwd));
      var os := Batch.Run(disk, files, dryRun, unquote).1;
      var after := Summary(disk, cwd, dryRun, unquote).1;
      && after.fs == disk.fs && after.writable == disk.writable
      && (forall p :: p !in files && p in disk.contents ==> p in after.contents && after.contents[p] == disk.contents[p])
      && forall i :: 0 <= i < |files| ==> os[i] == Validated(disk, files[i], dryRun, unquote)
  {
    var files := MarkdownFiles(disk.fs, ScanRoot(disk.fs, cwd));
    MarkdownFilesDistinct(disk.fs, ScanRoot(disk.fs, cwd));
    RunReadsOriginals(disk, files, dryRun, unquote);
  }
}
