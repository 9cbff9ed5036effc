/**
 * The `LinkValidator` object: one Markdown document, its dry-run flag and
 * the four counters its methods bump while they check and repair links.
 * The filesystem is the immutable tree of `FileTree`; reading and writing
 * the document go through a `Disk` value, and percent-decoding is the
 * parameter `unquote`.
 */
module Validator {
  import opened Wrappers
  import opened Text
  import opened Paths
  import opened FileTree
  import opened Urls
  import opened Scanner
  import opened Fragment
  import opened Resolver
  import opened Process

  /** What `open(...).read()` and `open(..., 'w').write(...)` see: the
      tree, the text of every file that can be read and decoded, and the
      files that can be written. */
  datatype Disk = Disk(fs: Node, contents: map<Path, string>, writable: set<Path>)

  /** What `validate_and_fix` on `target` returns, writes and adds to the
      counters. */
  datatype Outcome = Outcome(ok: bool, written: Option<string>, tally: Tally)

  function Validated(disk: Disk, target: Path, dryRun: bool, unquote: string -> string): Outcome
  {
    if !Exists(disk.fs, target) || target !in disk.contents then Outcome(false, None, Zero)
    else
      var content := disk.contents[target];
      var r := Process.ProcessLinks(FixerFor(disk.fs, Parent(target), unquote), content);
      var change := !dryRun && r.0 != content;
      if change && target !in disk.writable then Outcome(false, None, r.1)
      else Outcome(true, if change then Some(r.0) else None, r.1)
  }

  /** The disk after `validate_and_fix` on `target`. */
  function After(disk: Disk, target: Path, o: Outcome): Disk
  {
    match o.written
    case Some(text) => disk.(contents := disk.contents[target := text])
    case None => disk
  }

  class LinkValidator {
    const targetFile: Path
    const dryRun: bool
    const baseDir: Path := Parent(targetFile)
    var fixesCount: nat
    var totalLinks: nat
    var brokenLinks: nat
    var urlLinks: nat

    /** The counters as one value. */
    function Counters(): Tally
      reads this
    {
      Tally(totalLinks, urlLinks, fixesCount, brokenLinks)
    }

    constructor(targetFile: Path, dryRun: bool)
      ensures this.targetFile == targetFile && this.dryRun == dryRun
      ensures baseDir == Parent(targetFile)
      ensures Counters() == Zero
    {
      this.targetFile := targetFile;
      this.dryRun := dryRun;
      fixesCount := 0;
      totalLinks := 0;
      brokenLinks := 0;
      urlLinks := 0;
    }

    /** The `project_root` loop of `find_file_in_project`. */
    method FindProjectRoot(fs: Node) returns (projectRoot: Path)
      ensures projectRoot == ProjectRoot(fs, baseDir)
    {
      projectRoot := baseDir;
      while Parent(projectRoot) != projectRoot
        invariant ProjectRoot(fs, projectRoot) == ProjectRoot(fs, baseDir)
        decreases |projectRoot|
      {
        if Exists(fs, projectRoot + [".git"]) || Exists(fs, projectRoot + ["package.json"]) {
          break;
        }
        projectRoot := Parent(projectRoot);
      }
    }

    /** `find_file_in_project`: climb to the project root, then collect
        `root / filename` for every walked directory listing the name. */
    method FindFileInProject(fs: Node, filename: Name) returns (matches: seq<Path>)
      ensures matches == ProjectMatches(fs, baseDir, filename)
    {
      hide Walk;
      var projectRoot := FindProjectRoot(fs);
      var steps := Walk(fs, projectRoot, AnyName);
      matches := [];
      for i := 0 to |steps|
        invariant matches == MatchesIn(steps[..i], filename)
      {
        assert steps[..i + 1][..i] == steps[..i];
        if filename in steps[i].files {
          matches := matches + [steps[i].dir + [filename]];
        }
      }
      assert steps[..|steps|] == steps;
    }

    /** The `docs_root` loop. */
    method FindDocsRoot() returns (docsRoot: Path)
      ensures docsRoot == DocsRoot(baseDir)
    {
      docsRoot := baseDir;
      while LastName(docsRoot) != "docs" && Parent(docsRoot) != docsRoot
        invariant DocsRoot(docsRoot) == DocsRoot(baseDir)
        decreases |docsRoot|
      {
        docsRoot := Parent(docsRoot);
      }
    }

    /** Steps 2 to 4 of `fix_local_link` on the decoded path `clean`: an
        accepted `/docs/` route, or the path to probe and the name the
        fallback searches for. */
    method LocateTarget(fs: Node, clean: string) returns (loc: Located)
      ensures loc == Locate(fs, baseDir, clean)
    {
      var target: Path;
      var filename: Name;
      if StartsWith(clean, "/docs/") {
        var route := clean[1..];
        var docsRoot := FindDocsRoot();
        if LastName(docsRoot) == "docs" {
          target := JoinPath(docsRoot, route[5..]);
        } else {
          target := JoinPath(baseDir, route);
        }
        if IsDir(fs, target) {
          if Exists(fs, target + ["index.md"]) {
            return RouteValid;
          }
        } else if Exists(fs, WithMdSuffix(target)) {
          return RouteValid;
        }
        // The directory search for an empty name cannot run: a route
        // beginning "/docs/" always has a last component.
        DocsRouteHasName(clean);
        filename := NameOf(clean);
      } else if StartsWith(clean, "/") {
        var docsRoot := FindDocsRoot();
        var path := clean;
        if LastName(docsRoot) == "docs" {
          path := clean[1..];
          target := JoinPath(docsRoot, path);
        } else {
          target := JoinPath(baseDir, path[1..]);
        }
        filename := NameOf(path);
      } else {
        var path := clean;
        if StartsWith(path, "./") {
          path := path[2..];
        }
        target := JoinPath(baseDir, path);
        filename := NameOf(path);
      }
      return Probe(target, filename);
    }

    /** `fix_local_link`: the link as it should be written, counting it as
        broken when no target can be found. */
    method FixLocalLink(fs: Node, unquote: string -> string, link: string) returns (r: string)
      modifies this
      ensures r == Emitted(FixLink(fs, baseDir, link, unquote), link)
      ensures brokenLinks == old(brokenLinks) + if FixLink(fs, baseDir, link, unquote).Broken? then 1 else 0
      ensures fixesCount == old(fixesCount) && totalLinks == old(totalLinks) && urlLinks == old(urlLinks)
    {
      // Only the outcome of each search matters here, not how it is found.
      hide Locate, ProjectMatches, BestMatch, RelativeLink;
      var clean := Strip(Split(link, '#')[0]);
      var anchor := if '#' in link then "#" + Split(link, '#')[1] else "";
      if clean == "" {
        return link;
      }
      var loc := LocateTarget(fs, unquote(clean));
      if loc.RouteValid? {
        return link;
      }
      if Exists(fs, loc.target) {
        var newPath := DotPrefixed(RelativeLink(loc.target, baseDir));
        if newPath != Split(link, '#')[0] {
          return newPath + anchor;
        }
        return link;
      }
      if loc.name != "" {
        var matches := FindFileInProject(fs, loc.name);
        if matches != [] {
          var best := BestMatch(matches, baseDir);
          var newPath := DotPrefixed(RelativeLink(best, baseDir));
          return newPath + anchor;
        }
      }
      brokenLinks := brokenLinks + 1;
      return link;
    }

    /** The `replace_link` closure on one match `m` of `s`. */
    method ReplaceLink(fs: Node, unquote: string -> string, kind: Kind, s: string, m: Match) returns (r: string)
      requires m.start <= m.end <= |s|
      modifies this
      ensures var v := Visit(FixerFor(fs, baseDir, unquote), kind, s, m);
        r == v.0 && Counters() == old(Counters()).Plus(v.1)
    {
      // The decision procedure is used here, not looked into.
      hide FixLink, IsUrl, Visit;
      ghost var env := FixerFor(fs, baseDir, unquote);
      VisitTally(env, kind, s, m);
      var text := m.text;
      var link := m.target;
      totalLinks := totalLinks + 1;
      if IsUrl(link) {
        UrlKeptVerbatim(env, kind, s, m);
        urlLinks := urlLinks + 1;
        return s[m.start..m.end];
      }
      VisitRebuilds(env, kind, s, m);
      assert env(link) == FixLink(fs, baseDir, link, unquote);
      var fixedLink := FixLocalLink(fs, unquote, link);
      if fixedLink != link {
        fixesCount := fixesCount + 1;
      }
      r := Rebuild(kind, text, fixedLink);
    }

    /** One step of `re.sub` at position i: the replacement of the match
        there, or the character there when nothing matches, and where the
        scan goes on. */
    method SubstituteAt(fs: Node, unquote: string -> string, kind: Kind, s: string, i: nat)
      returns (piece: string, next: nat)
      requires i < |s|
      modifies this
      ensures i < next <= |s|
      ensures var env := FixerFor(fs, baseDir, unquote);
        && piece + SubFrom(env, kind, s, next).0 == SubFrom(env, kind, s, i).0
        && Counters().Plus(SubFrom(env, kind, s, next).1) == old(Counters()).Plus(SubFrom(env, kind, s, i).1)
    {
      hide FixLink, MatchAt, Visit, SubFrom;
      ghost var env := FixerFor(fs, baseDir, unquote);
      var found := MatchAt(kind, s, i);
      if found.Some? {
        SubStep(env, kind, s, i);
        piece := ReplaceLink(fs, unquote, kind, s, found.value);
        next := found.value.end;
      } else {
        SubSkip(env, kind, s, i);
        piece := [s[i]];
        next := i + 1;
      }
    }

    /** `re.sub(pattern, replace_link, s, flags=re.MULTILINE)` for one
        pattern: scan left to right, replace each match, copy the rest. */
    method Substitute(fs: Node, unquote: string -> string, kind: Kind, s: string) returns (out: string)
      modifies this
      ensures var r := Sub(FixerFor(fs, baseDir, unquote), kind, s);
        out == r.0 && Counters() == old(Counters()).Plus(r.1)
    {
      hide FixLink, MatchAt, Visit, SubFrom;
      ghost var env := FixerFor(fs, baseDir, unquote);
      out := "";
      var i := 0;
      while i < |s|
        invariant i <= |s|
        invariant out + SubFrom(env, kind, s, i).0 == SubFrom(env, kind, s, 0).0
        invariant Counters().Plus(SubFrom(env, kind, s, i).1) == old(Counters()).Plus(SubFrom(env, kind, s, 0).1)
        decreases |s| - i
      {
        var piece, next := SubstituteAt(fs, unquote, kind, s, i);
        out := out + piece;
        i := next;
      }
      SubAtEnd(env, kind, s);
    }

    /** `process_links`: the link, image and reference passes in turn,
        each over the previous pass's output. */
    method ProcessLinks(fs: Node, unquote: string -> string, content: string) returns (out: string)
      modifies this
      ensures var r := Process.ProcessLinks(FixerFor(fs, baseDir, unquote), content);
        out == r.0 && Counters() == old(Counters()).Plus(r.1)
    {
      hide FixLink, IsUrl;
      ghost var env := FixerFor(fs, baseDir, unquote);
      out := content;
      for n := 0 to |Kinds|
        invariant out == Passes(env, content, n).0
        invariant Counters() == old(Counters()).Plus(Passes(env, content, n).1)
      {
        out := Substitute(fs, unquote, Kinds[n], out);
      }
    }

    /** `validate_and_fix`: read the document, process it, and write it
        back when not in dry-run mode and something changed.  `ok` is the
        returned flag; `written` is the text written, if any. */
    method ValidateAndFix(disk: Disk, unquote: string -> string) returns (ok: bool, written: Option<string>)
      modifies this
      ensures var o := Validated(disk, targetFile, dryRun, unquote);
        ok == o.ok && written == o.written && Counters() == old(Counters()).Plus(o.tally)
    {
      hide FixLink, Process.ProcessLinks;
      if !Exists(disk.fs, targetFile) {
        return false, None;
      }
      if targetFile !in disk.contents {
        return false, None;
      }
      var content := disk.contents[targetFile];
      var modified := ProcessLinks(disk.fs, unquote, content);
      written := None;
      if !dryRun && modified != content {
        if targetFile !in disk.writable {
          return false, None;
        }
        written := Some(modified);
      }
      return true, written;
    }
  }

  // ---------------------------------------------------------------------
  // Lemmas

  /** `validate_and_fix` writes exactly when not in dry-run mode, the file
      exists and can be read and written, and processing changed it; what
      it writes is the processed text. */
  lemma WritesOnlyChanges(disk: Disk, target: Path, dryRun: bool, unquote: string -> string)
    ensures var o := Validated(disk, target, dryRun, unquote);
      && (o.written.Some? <==>
           && !dryRun && Exists(disk.fs, target) && target in disk.contents && target in disk.writable
           && Process.ProcessLinks(FixerFor(disk.fs, Parent(target), unquote), disk.contents[target]).0 != disk.contents[target])
      && (o.written.Some? ==>
           o.written.value == Process.ProcessLinks(FixerFor(disk.fs, Parent(target), unquote), disk.contents[target]).0)
  {
  }

  /** In dry-run mode nothing is written and the disk is left as it was. */
  lemma DryRunWritesNothing(disk: Disk, target: Path, unquote: string -> string)
    ensures Validated(disk, target, true, unquote).written == None
    ensures After(disk, target, Validated(disk, target, true, unquote)) == disk
  {
  }

  /** `validate_and_fix` fails only for a missing, unreadable or unwritable
      file; broken links do not make it fail. */
  lemma FailsOnlyOnIo(disk: Disk, target: Path, dryRun: bool, unquote: string -> string)
    ensures var o := Validated(disk, target, dryRun, unquote);
      !o.ok <==>
        || !Exists(disk.fs, target)
        || target !in disk.contents
        || (!dryRun && target !in disk.writable
            && Process.ProcessLinks(FixerFor(disk.fs, Parent(target), unquote), disk.contents[target]).0 != disk.contents[target])
  {
  }

  /** Without a readable file no counter moves; otherwise the counters are
      those of the three passes, whether or not the write succeeds. */
  lemma CountsWithoutIo(disk: Disk, target: Path, dryRun: bool, unquote: string -> string)
    ensures var o := Validated(disk, target, dryRun, unquote);
      o.tally == if Exists(disk.fs, target) && target in disk.contents
        then Process.ProcessLinks(FixerFor(disk.fs, Parent(target), unquote), disk.contents[target]).1
        else Zero
  {
  }

  /** Writing a document changes that document's text and nothing else. */
  lemma AfterChangesOnlyTarget(disk: Disk, target: Path, o: Outcome, p: Path)
    requires p != target
    ensures After(disk, target, o).fs == disk.fs && After(disk, target, o).writable == disk.writable
    ensures p in After(disk, target, o).contents <==> p in disk.contents
    ensures p in disk.contents ==> After(disk, target, o).contents[p] == disk.contents[p]
  {
  }
}
