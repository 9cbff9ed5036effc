/**
 * What the `main` loops of the two batch drivers compute, as functions of
 * the disk and of the list of documents: one `LinkValidator` per document,
 * run on the disk the previous documents left, the summed counters, the
 * lists of documents with broken links and of modified documents, and the
 * exit status.
 */
module Batch {
  import opened Wrappers
  import opened Paths
  import opened FileTree
  import opened Process
  import opened Validator

  /** `validate_and_fix` on each of `files` in turn: the disk afterwards and
      one outcome per file. */
  function Run(disk: Disk, files: seq<Path>, dryRun: bool, unquote: string -> string): (r: (Disk, seq<Outcome>))
    ensures |r.1| == |files|
  {
    if files == [] then (disk, [])
    else
      var prev := Run(disk, files[..|files| - 1], dryRun, unquote);
      var f := files[|files| - 1];
      var o := Validated(prev.0, f, dryRun, unquote);
      (After(prev.0, f, o), prev.1 + [o])
  }

  /** The counters summed over the outcomes. */
  function Totals(os: seq<Outcome>): Tally
  {
    if os == [] then Zero else Totals(os[..|os| - 1]).Plus(os[|os| - 1].tally)
  }

  /** `files_with_issues`: each file with broken links, with their number. */
  function Issues(files: seq<Path>, os: seq<Outcome>): seq<(Path, nat)>
    requires |files| == |os|
  {
    if files == [] then []
    else
      var n := |files| - 1;
      Issues(files[..n], os[..n]) + (if os[n].tally.broken > 0 then [(files[n], os[n].tally.broken)] else [])
  }

  /** `files_modified`: each file with fixes, with their number, unless the
      run is a dry run. */
  function Modified(files: seq<Path>, os: seq<Outcome>, dryRun: bool): seq<(Path, nat)>
    requires |files| == |os|
  {
    if files == [] then []
    else
      var n := |files| - 1;
      Modified(files[..n], os[..n], dryRun)
        + (if os[n].tally.fixes > 0 && !dryRun then [(files[n], os[n].tally.fixes)] else [])
  }

  /** `0 if total_broken == 0 else 1`. */
  function ExitCode(t: Tally): int
  {
    if t.broken == 0 then 0 else 1
  }

  /** The body both loops share: a fresh `LinkValidator(str(md_file),
      dry_run=...)`, its `validate_and_fix()`, and the validator's counters
      afterwards.  `next` is the disk once the validator's write, if any,
      has happened. */
  method ValidateOne(cur: Disk, mdFile: Path, dryRun: bool, unquote: string -> string)
    returns (success: bool, next: Disk, counts: Tally)
    ensures var o := Validated(cur, mdFile, dryRun, unquote);
      success == o.ok && next == After(cur, mdFile, o) && counts == o.tally
  {
    hide Validated;
    var validator := new LinkValidator(mdFile, dryRun);
    var written;
    success, written := validator.ValidateAndFix(cur, unquote);
    next := cur;
    if written.Some? {
      next := cur.(contents := cur.contents[mdFile := written.value]);
    }
    counts := validator.Counters();
  }

  // ---------------------------------------------------------------------
  // Lemmas

  /** A file is listed with issues exactly when its validator counted
      broken links, and it is listed with that count. */
  lemma {:induction false} IssuesExactly(files: seq<Path>, os: seq<Outcome>, p: Path, b: nat)
    requires |files| == |os|
    ensures (p, b) in Issues(files, os) <==>
      exists i :: 0 <= i < |files| && files[i] == p && os[i].tally.broken == b && b > 0
    decreases |files|
  {
    if files != [] {
      var n := |files| - 1;
      IssuesExactly(files[..n], os[..n], p, b);
      if (p, b) in Issues(files[..n], os[..n]) {
        var i :| 0 <= i < n && files[..n][i] == p && os[..n][i].tally.broken == b && b > 0;
        assert files[i] == p && os[i].tally.broken == b;
      }
      if exists i :: 0 <= i < |files| && files[i] == p && os[i].tally.broken == b && b > 0 {
        var i :| 0 <= i < |files| && files[i] == p && os[i].tally.broken == b && b > 0;
        if i < n {
          assert files[..n][i] == p && os[..n][i].tally.broken == b;
        }
      }
    }
  }

  /** A file is listed as modified exactly when its validator fixed links
      and the run is not a dry run. */
  lemma {:induction false} ModifiedExactly(files: seq<Path>, os: seq<Outcome>, dryRun: bool, p: Path, c: nat)
    requires |files| == |os|
    ensures (p, c) in Modified(files, os, dryRun) <==>
      !dryRun && exists i :: 0 <= i < |files| && files[i] == p && os[i].tally.fixes == c && c > 0
    decreases |files|
  {
    if files != [] {
      var n := |files| - 1;
      ModifiedExactly(files[..n], os[..n], dryRun, p, c);
      if (p, c) in Modified(files[..n], os[..n], dryRun) {
        var i :| 0 <= i < n && files[..n][i] == p && os[..n][i].tally.fixes == c && c > 0;
        assert files[i] == p && os[i].tally.fixes == c;
      }
      if !dryRun && exists i :: 0 <= i < |files| && files[i] == p && os[i].tally.fixes == c && c > 0 {
        var i :| 0 <= i < |files| && files[i] == p && os[i].tally.fixes == c && c > 0;
        if i < n {
          assert files[..n][i] == p && os[..n][i].tally.fixes == c;
        }
      }
    }
  }

  /** A dry run lists no modified file. */
  lemma {:induction false} DryRunModifiesNone(files: seq<Path>, os: seq<Outcome>)
    requires |files| == |os|
    ensures Modified(files, os, true) == []
    decreases |files|
  {
    if files != [] {
      DryRunModifiesNone(files[..|files| - 1], os[..|os| - 1]);
    }
  }

  /** The summed broken count is zero exactly when no file has a broken
      link, that is when no file is listed with issues. */
  lemma {:induction false} NoBrokenIffNoIssues(files: seq<Path>, os: seq<Outcome>)
    requires |files| == |os|
    ensures Totals(os).broken == 0 <==> forall i :: 0 <= i < |os| ==> os[i].tally.broken == 0
    ensures Totals(os).broken == 0 <==> Issues(files, os) == []
    decreases |files|
  {
    if files != [] {
      var n := |files| - 1;
      NoBrokenIffNoIssues(files[..n], os[..n]);
      assert forall i :: 0 <= i < n ==> os[..n][i] == os[i];
    }
  }

  /** The exit status is 0 exactly when no broken link was counted,
      whatever each `validate_and_fix` returned. */
  lemma ExitZeroIff(files: seq<Path>, os: seq<Outcome>)
    requires |files| == |os|
    ensures ExitCode(Totals(os)) == 0 <==> forall i :: 0 <= i < |os| ==> os[i].tally.broken == 0
    ensures ExitCode(Totals(os)) == 0 <==> Issues(files, os) == []
  {
    NoBrokenIffNoIssues(files, os);
  }

  /** A dry run leaves the disk as it was, so every document is read as it
      was when the run began. */
  lemma {:induction false} DryRunLeavesDisk(disk: Disk, files: seq<Path>, unquote: string -> string)
    ensures Run(disk, files, true, unquote).0 == disk
    ensures forall i :: 0 <= i < |files| ==>
      Run(disk, files, true, unquote).1[i] == Validated(disk, files[i], true, unquote)
    decreases |files|
  {
    hide Validated, After;
    if files != [] {
      var n := |files| - 1;
      DryRunLeavesDisk(disk, files[..n], unquote);
      DryRunWritesNothing(disk, files[n], unquote);
      assert forall i :: 0 <= i < n ==> files[..n][i] == files[i];
    }
  }

  /** `validate_and_fix` depends on the disk only through the tree, the
      writable set and the document's own text. */
  lemma ValidatedLocal(d: Disk, e: Disk, f: Path, dryRun: bool, unquote: string -> string)
    requires d.fs == e.fs && d.writable == e.writable
    requires (f in d.contents <==> f in e.contents)
    requires f in d.contents ==> d.contents[f] == e.contents[f]
    ensures Validated(d, f, dryRun, unquote) == Validated(e, f, dryRun, unquote)
  {
  }

  /** When no document is listed twice, each is processed as it was when
      the run began: writing one document never changes what another
      reads. */
  lemma {:induction false} RunReadsOriginals(disk: Disk, files: seq<Path>, dryRun: bool, unquote: string -> string)
    requires forall i, j :: 0 <= i < j < |files| ==> files[i] != files[j]
    ensures var r := Run(disk, files, dryRun, unquote);
      && r.0.fs == disk.fs && r.0.writable == disk.writable
      && (forall p :: p !in files ==> (p in r.0.contents <==> p in disk.contents))
      && (forall p :: p !in files && p in disk.contents ==> r.0.contents[p] == disk.contents[p])
      && forall i :: 0 <= i < |files| ==> r.1[i] == Validated(disk, files[i], dryRun, unquote)
    decreases |files|
  {
    hide Validated;
    if files != [] {
      var n := |files| - 1;
      var init := files[..n];
      var f := files[n];
      var prev := Run(disk, init, dryRun, unquote);
      RunReadsOriginals(disk, init, dryRun, unquote);
      assert f !in init by {
        forall i | 0 <= i < n
          ensures init[i] != f
        {
          assert init[i] == files[i];
        }
      }
      ValidatedLocal(prev.0, disk, f, dryRun, unquote);
      var o := Validated(prev.0, f, dryRun, unquote);
      forall p | p !in files
        ensures (p in After(prev.0, f, o).contents <==> p in disk.contents)
        ensures p in disk.contents ==> After(prev.0, f, o).contents[p] == disk.contents[p]
      {
        assert p != f;
        AfterChangesOnlyTarget(prev.0, f, o, p);
      }
      assert forall i :: 0 <= i < n ==> init[i] == files[i];
    }
  }

  /** One more file: its outcome is computed on the disk the earlier
      files left, and each summary grows by that file's entry only. */
  lemma RunStep(disk: Disk, files: seq<Path>, dryRun: bool, unquote: string -> string, k: nat)
    requires k < |files|
    ensures var prev := Run(disk, files[..k], dryRun, unquote);
      var o := Validated(prev.0, files[k], dryRun, unquote);
      var next := Run(disk, files[..k + 1], dryRun, unquote);
      && next == (After(prev.0, files[k], o), prev.1 + [o])
      && Totals(next.1) == Totals(prev.1).Plus(o.tally)
      && Issues(files[..k + 1], next.1)
         == Issues(files[..k], prev.1) + (if o.tally.broken > 0 then [(files[k], o.tally.broken)] else [])
      && Modified(files[..k + 1], next.1, dryRun)
         == Modified(files[..k], prev.1, dryRun) + (if o.tally.fixes > 0 && !dryRun then [(files[k], o.tally.fixes)] else [])
  {
    hide Validated;
    var prev := Run(disk, files[..k], dryRun, unquote);
    var o := Validated(prev.0, files[k], dryRun, unquote);
    assert files[..k + 1][..k] == files[..k];
    assert (prev.1 + [o])[..k] == prev.1;
  }
}
