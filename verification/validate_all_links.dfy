/**
 * `main` of the batch validation script: the same scan and loop as the repair
 * script, with every validator in dry-run mode and no list of modified
 * files.
 */
module ValidateAllLinks {
  import opened Wrappers
  import opened Paths
  import opened FileTree
  import opened Process
  import opened Validator
  import opened Discovery
  import opened Batch
  import FixAllLinks

  /** The totals `main` prints and the status it returns. */
  datatype Report = Report(
    totalFiles: nat,
    totalLinks: nat,
    totalBroken: nat,
    totalFixed: nat,
    filesWithIssues: seq<(Path, nat)>,
    exitCode: int)

  /** What `main` reports for working directory `cwd`. */
  function Summary(disk: Disk, cwd: Path, unquote: string -> string): Report
  {
    var files := MarkdownFiles(disk.fs, ScanRoot(disk.fs, cwd));
    var os := Batch.Run(disk, files, true, unquote).1;
    var t := Totals(os);
    Report(|files|, t.total, t.broken, t.fixes, Issues(files, os), ExitCode(t))
  }

  /** `main()`: every file found is checked on the disk as it is, since no
      validator writes. */
  method ValidateAll(disk: Disk, cwd: Path, unquote: string -> string) returns (report: Report)
    ensures report == Summary(disk, cwd, unquote)
  {
    hide Validated, After, MarkdownFiles;
    var projectRoot := cwd;
    var docsDir: Path;
    if Exists(disk.fs, projectRoot + ["docs"]) {
      docsDir := projectRoot + ["docs"];
    } else {
      docsDir := projectRoot;
    }
    var markdownFiles := FindMarkdownFiles(disk.fs, docsDir);
    var totalFiles: nat, totalLinks: nat, totalBroken: nat, totalFixed: nat := 0, 0, 0, 0;
    var filesWithIssues: seq<(Path, nat)> := [];
    for k := 0 to |markdownFiles|
      invariant var os := Batch.Run(disk, markdownFiles[..k], true, unquote).1;
        var t := Totals(os);
        && totalFiles == k
        && totalLinks == t.total && totalBroken == t.broken && totalFixed == t.fixes
        && filesWithIssues == Issues(markdownFiles[..k], os)
    {
      DryRunLeavesDisk(disk, markdownFiles[..k], unquote);
      RunStep(disk, markdownFiles, true, unquote, k);
      var mdFile := markdownFiles[k];
      var _, _, counts := ValidateOne(disk, mdFile, true, unquote);
      totalFiles := totalFiles + 1;
      totalLinks := totalLinks + counts.total;
      totalBroken := totalBroken + counts.broken;
      totalFixed := totalFixed + counts.fixes;
      if counts.broken > 0 {
        filesWithIssues := filesWithIssues + [(mdFile, counts.broken)];
      }
    }
    assert markdownFiles[..|markdownFiles|] == markdownFiles;
    report := Report(totalFiles, totalLinks, totalBroken, totalFixed, filesWithIssues,
                     if totalBroken == 0 then 0 else 1);
  }

  // ---------------------------------------------------------------------
  // Lemmas

  /** The validation script reports what the repair script reports with
      `--dry-run`, and that run leaves the disk as it was. */
  lemma SameAsDryRun(disk: Disk, cwd: Path, unquote: string -> string)
    ensures var f := FixAllLinks.Summary(disk, cwd, true, unquote);
      var rep := Summary(disk, cwd, unquote);
      && f.1 == disk && f.0.filesModified == []
      && rep == Report(f.0.totalFiles, f.0.totalLinks, f.0.totalBroken, f.0.totalFixed,
                       f.0.filesWithIssues, f.0.exitCode)
  {
    FixAllLinks.DryRunChangesNothing(disk, cwd, unquote);
  }

  /** Every file found is checked as it was when the run began, and the
      status is 0 exactly when no file is listed with broken links. */
  lemma ChecksOriginals(disk: Disk, cwd: Path, unquote: string -> string)
    ensures var files := MarkdownFiles(disk.fs, ScanRoot(disk.fs, cwd));
      var os := Batch.Run(disk, files, true, unquote).1;
      forall i :: 0 <= i < |files| ==> os[i] == Validated(disk, files[i], true, unquote)
    ensures var rep := Summary(disk, cwd, unquote);
      rep.exitCode == 0 <==> rep.filesWithIssues == []
  {
    var files := MarkdownFiles(disk.fs, ScanRoot(disk.fs, cwd));
    DryRunLeavesDisk(disk, files, unquote);
    ExitZeroIff(files, Batch.Run(disk, files, true, unquote).1);
  }
}
