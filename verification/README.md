# Markdown link validation and repair, modelled in Dafny

The repository keeps a VitePress documentation site. Its link tooling has three parts:

- `LinkValidator` (in `link_validator.py`) takes one Markdown document and scans it with three regular expressions: inline links `[text](target)`, images `![alt](target)` and reference definitions `[text]: target`. It skips URL targets. Every local target goes to `fix_local_link`, which does one of three things:
  - it keeps the link;
  - it rewrites the link as a `./`-prefixed relative path to the file it found, either the target itself or a file of the same name found in the project. Among those it takes the one with the shortest path relative to the document's grandparent directory; when some match lies outside that directory, `relative_to` raises and it takes the first match in walk order;
  - it counts the link as broken.
  
  It then rebuilds each match, keeps four counters, and writes the document back only when it is not a dry run and the processed text differs from what it read.
- `fix_all_links.py` runs one validator on every Markdown file under `docs/` (or the working directory). It skips hidden directories and `node_modules`, sums the counters, lists the files with broken links and the modified files, and returns 0 exactly when no broken link was counted.
- `validate_all_links.py` does the same with every validator in dry-run mode.

The model works as follows:

- The filesystem is an immutable tree, `FileTree.Node`. Paths are sequences of names, `os.walk` is `FileTree.Walk`, and existence follows the operating system's resolution of `..`.
- `os.path.relpath` is lexical (`Paths.RelPath`).
- `urllib.parse.urlparse`, as far as `is_url` needs it, is `Urls.UrlSplit`. It follows the `urlsplit` of CPython 3.12 and of the patched 3.11 releases: leading C0 control characters and spaces are stripped first (`Urls.StripLeadingControls`), and a scheme must start with a letter (`Urls.HasScheme`). Older interpreters, which take `1x://y` for a URL, are not modelled.
- The three regular expressions are hand-written scanners (`Scanner`), including the greedy backtracking of the reference pattern.
- `re.sub` is `Process.SubFrom`.
- Reading and writing a document go through a `Validator.Disk` value, which holds the tree, the readable text of each file and the writable files.
- Percent-decoding (`urllib.parse.unquote`) is a parameter of the model.

The definitions the contracts talk about:

- `fix_local_link` is `Resolver.FixLink`; the string it returns is `Resolver.Emitted`. Its target computation is `Resolver.Locate`, with `Resolver.DocsRoot` and `Resolver.ProjectRoot`. `find_file_in_project` is `Resolver.ProjectMatches`, its `min` is `Resolver.BestMatch`, and `get_relative_path` is `Paths.RelativeLink` over `Paths.RelPath`.
- `is_url` is `Urls.IsUrl`.
- The three patterns are `Scanner.MatchLink`, `Scanner.MatchImage` and `Scanner.MatchReference`.
- `replace_link` is `Process.Visit`, one `re.sub` is `Process.SubFrom`, and `process_links` is `Process.ProcessLinks`.
- `validate_and_fix` is `Validator.Validated`.
- `find_markdown_files` is `Discovery.MarkdownFiles`, and the loop of each `main` is `Batch.Run`, summed by `Batch.Totals`.

Pure logic is written as functions, with lemmas about them. The `LinkValidator` object is a class with its four counters as fields. Its methods are proved against those functions. The two `main` loops are methods proved against left folds (`Batch.Run`, `Batch.Totals`, `Batch.Issues`, `Batch.Modified`).

Some behaviour of the code is modelled as written:

- An image with non-empty alt text contains a link one character in. The link pass visits and counts that link, unless an earlier link match already covers its position (`Process.ImageVisitedByLinkPass`). The image pass then runs over the link pass's output.
- A reference definition whose target is local (not a URL) is rebuilt as `[text]: target`, even when its target is unchanged (`Scanner.ReferenceRebuildExact`). This normalises its indentation and the spacing after the colon. Under `re.MULTILINE`, the leading `\s*` also swallows the blank lines before the definition: `"x\n\n[a]: b"` becomes `"x\n[a]: b"`. The file is then rewritten although `fixes_count` stays 0, so the batch repair script does not list it as modified. A definition with a URL target is returned as matched, so `"x\n\n[a]: https://e.org"` stays as it is (`Process.SubUrlsOnly`).
- The directory-search branch inside the `/docs/` case (`link_validator.py:112-124`) never runs, because a link that starts with `/docs/` always has a non-empty `Path(...).name` (`Paths.DocsRouteHasName`). The model therefore has no such branch.

## Model

| member | source | states |
|---|---|---|
| Text.StripIsEmptyIffAllSpace | link_validator.py:80-85 | the stripped path part is empty exactly when every character of it is whitespace, which is when `fix_local_link` returns the link unchanged |
| Text.Split | link_validator.py:80-81 | `str.split` yields at least one piece, and the first piece is the text before the first separator |
| Text.SplitFree | link_validator.py:80-81 | no piece of a split contains the separator |
| Text.JoinSplit | link_validator.py:80-81 | joining the pieces of a split with the separator gives back the original string |
| Text.SplitJoin | link_validator.py:80-81 | splitting a join of separator-free pieces gives back the pieces |
| Text.ReplaceChar | link_validator.py:73 | `str.replace` of one character keeps the length and changes exactly the occurrences of that character |
| Text.IndexOf | link_validator.py:80-81 | the position of the first occurrence of a character, or the length when there is none |
| Fragment.HashNone | link_validator.py:80-81 | without '#', the path part is the whole link and the anchor is empty |
| Fragment.HashSome | link_validator.py:80-81 | with '#', the path part is the text before the first '#' and the anchor is '#' followed by the text up to the second '#' |
| Fragment.AnchorIsFirstFragment | link_validator.py:80-81 | the anchor is exactly the slice of the link from the first '#' up to the next '#' or the end |
| Urls.IsUrlExactly | link_validator.py:38-41 | `is_url` holds exactly when the cleaned link has a letter-led scheme of scheme characters followed by "://" and a character that does not end the network location |
| Urls.UrlShapeMakesUrl | link_validator.py:38-41 | every link of that shape is a URL, so its target is passed through untouched |
| Urls.StripLeadingControls | link_validator.py:40 | `urlparse` drops a prefix made only of control characters and spaces, and what remains is empty or starts with a character above the space |
| Urls.RemoveUnsafe | link_validator.py:40 | after cleaning, no tab, carriage return or newline is left; the result is empty exactly when the input holds nothing else, and is the input itself when it holds none of them |
| Urls.RemoveUnsafeConcat | link_validator.py:40 | the deletion works piece by piece (it distributes over concatenation), so the other characters are kept in their order |
| Paths.DotPrefixed | link_validator.py:147-148 | the emitted path always starts with "./", is the path itself when it already started with "./", and is otherwise "./" followed by it |
| Paths.CommonPrefixLength | link_validator.py:73 | the length of the longest common prefix of two paths |
| Paths.Ups | link_validator.py:73 | `relpath` climbs with exactly n ".." components |
| Paths.LastIndexOf | link_validator.py:108 | the position of the last occurrence of a character, used by `with_suffix` |
| Paths.JoinPath | link_validator.py:99-141 | joining a non-absolute string onto a directory stays below that directory |
| Paths.DocsRouteHasName | link_validator.py:112-113 | a route beginning "/docs/" always has a non-empty last name, so the branch for empty names is dead |
| Paths.RelPathRoundTrip | link_validator.py:70-75 | joining `./` plus `relpath(target, start)` onto `start` and normalising gives back the normalised target |
| Paths.SameDirectoryJoin | link_validator.py:146-148 | the relative path "." prefixed with "./" leads back to the start directory |
| Paths.RelNormalize | link_validator.py:73 | climbing out of `start` to the common prefix and descending into the target normalises to the target |
| Paths.RelativeLinkWithoutBackslash | link_validator.py:73 | when no name holds a backslash, `get_relative_path` is exactly `relpath` |
| Paths.NormalizeFromConcat | link_validator.py:73 | normalising a concatenation is normalising the second part after the first |
| Paths.NormalizeFromPlain | link_validator.py:73 | names without ".." are appended unchanged by normalisation |
| Paths.NormalizeFromUps | link_validator.py:73 | n ".." components drop the last n names |
| Paths.DotSlashComponents | link_validator.py:139-141 | a leading "./" does not change the path a link names |
| FileTree.ChildNamed | link_validator.py:144 | the sub-directory of a given name is found exactly when one has that name |
| FileTree.ResolveIsNormalize | link_validator.py:144 | a path that resolves on the tree resolves to its lexical normal form |
| FileTree.ResolvedIsEntry | link_validator.py:144 | what a path resolves to from a directory is a directory or a file of the tree |
| FileTree.PlainEntryResolves | link_validator.py:144 | a path without ".." that names an entry resolves to itself |
| FileTree.LookupConcat | link_validator.py:64 | looking up a concatenated path is looking up the second part below the first |
| FileTree.WalkNodeSound | link_validator.py:64-68 | every step of a walk below a node is a directory below it, reached through accepted names, listed with exactly its files |
| FileTree.WalkNodeComplete | link_validator.py:64-68 | every directory reached through accepted names appears in the walk with its files |
| FileTree.WalkSound | link_validator.py:64-68 | every `os.walk` tuple is a directory below the top, reached through accepted names, with its own files |
| FileTree.WalkComplete | link_validator.py:64-68 | every directory below the top reached through accepted names is visited |
| FileTree.WalkDistinct | fix_all_links.py:16-18 | on a real directory tree, `os.walk` visits each directory once, and no step lists a file twice |
| FileTree.LookupPlain | link_validator.py:73 | in a tree whose names are free of a character, every path found is free of it and made of plain names (not empty, "." or "..") |
| FileTree.EntryPlain | link_validator.py:73 | every entry of such a tree has a path of plain names free of that character |
| Scanner.LinkMatchSound | link_validator.py:31 | a link match is `[`, non-empty text without `]`, `](`, a non-empty target without `)`, then `)` |
| Scanner.LinkMatchComplete | link_validator.py:31 | every text of that shape is matched there, with that text and target |
| Scanner.ImageMatchSound | link_validator.py:33 | an image match is `![`, text without `]` (possibly empty), `](`, a non-empty target without `)`, then `)` |
| Scanner.ImageMatchComplete | link_validator.py:33 | every text of that shape is matched there |
| Scanner.ReferenceMatchSound | link_validator.py:35 | a reference match starts a line, has leading whitespace, `[text]:`, whitespace, and a target running to the end of the line |
| Scanner.ReferenceMatchText | link_validator.py:35 | the matched text is the indentation, `[`, the text, `]:`, the gap and the target |
| Scanner.ReferenceMatchComplete | link_validator.py:35 | every line of that shape is matched with that text, and the greedy target starts no earlier than the shape's |
| Scanner.LastNonNewline | link_validator.py:35 | the last character before a position that is not a newline, which is where `.+$` ends |
| Scanner.MatchAt | link_validator.py:205 | a match starts where it is looked for, is non-empty, and has a non-empty target |
| Scanner.RebuildMatched | link_validator.py:198-203 | rebuilding a link or image match around its own target gives back the matched text |
| Scanner.ReferenceRebuildExact | link_validator.py:200-201 | a rebuilt reference equals the matched text exactly when it had no indentation and one space after the colon |
| Scanner.ImageAlsoMatchesLink | link_validator.py:29-33 | an image with non-empty alt text also matches the link pattern one character later, with the same text and target |
| Scanner.MatchesOrdered | link_validator.py:205 | the matches `re.sub` replaces are non-overlapping and in increasing order |
| Resolver.DocsRootNearest | link_validator.py:95-97 | `docs_root` is the nearest ancestor named "docs", or the root when there is none |
| Resolver.ProjectRootNearest | link_validator.py:54-61 | the project root is the nearest ancestor holding `.git` or `package.json`, or the root |
| Resolver.MatchesInExactly | link_validator.py:63-68 | a path is a match exactly when some walked directory lists the name and the path is that directory plus the name |
| Resolver.ProjectMatchesExactly | link_validator.py:51-68 | `find_file_in_project` returns exactly the files of that name in directories below the project root |
| Resolver.Keys | link_validator.py:161 | the sort key of every match, in order |
| Resolver.FirstMinimum | link_validator.py:161 | `min` returns the first element with the least key |
| Resolver.BestMatchShortest | link_validator.py:159-163 | the chosen match is one of the matches; when all lie under the document's grandparent it has the shortest key and comes first among those with that key, and otherwise it is the first match |
| Resolver.EmptyPathKept | link_validator.py:84-85 | a link whose path part is blank is kept and returned unchanged |
| Resolver.MovedShape | link_validator.py:147-151 | a rewritten link is a "./" path followed by the original anchor |
| Resolver.ChangedLinkReaches | link_validator.py:77-174 | when `fix_local_link` returns something other than its input, it has moved the link, and the new path leads from the document's directory to a file or directory that exists |
| Resolver.BrokenExactly | link_validator.py:155-174 | a link is counted broken exactly when its path is non-empty, is not an accepted route, does not exist, and no file of its name is found in the project |
| Resolver.ExistingTargetNormalised | link_validator.py:144-152 | for an existing target, the link is kept exactly when it already equals the normalised relative path, and otherwise becomes that path |
| Resolver.AcceptedRouteKept | link_validator.py:92-109 | a link whose decoded path is a `/docs/` route whose mapped path is a directory with `index.md`, or, when it is not a directory, whose `.md` file exists, is returned unchanged and counted neither fixed nor broken |
| Resolver.DocsRouteSearchesByName | link_validator.py:112-157 | an unaccepted `/docs/` route falls through to the search by its non-empty last name |
| Resolver.MovedCases | link_validator.py:143-169 | a moved link is the relative path to the existing target, or, when the target is missing, to the best project match of its name |
| Resolver.RelativeLinkReaches | link_validator.py:70-75 | following the emitted relative path from the document's directory leads to the target |
| Resolver.ExistingReached | link_validator.py:144-152 | the path emitted for an existing target leads to an entry of the tree |
| Resolver.MatchReached | link_validator.py:157-169 | the path emitted for a project match leads to an entry of the tree |
| Resolver.MovedTargetExists | link_validator.py:143-169 | every rewritten link leads, from the document's directory, to a file or directory that exists |
| Process.VisitCounts | link_validator.py:184-194 | one visit counts its match once, and at most one of a URL, a fix or a broken link |
| Process.SubFrom | link_validator.py:184-205 | `re.sub` counts one link per match of its pattern |
| Process.SubTallyIsSum | link_validator.py:181-205 | the counters a pass adds are the visits' tallies summed over exactly the matches `re.sub` finds, which lie in order without overlapping |
| Process.SubUrlsOnly | link_validator.py:186-189 | a pass in which every match has a URL target leaves the text unchanged and counts each match as one link and one URL, nothing else |
| Process.SubCounts | link_validator.py:181-205 | over a whole pass, URLs, fixes and broken links together never exceed the links counted |
| Process.VisitWithoutFix | link_validator.py:192-203 | a link or image visit that fixes nothing reproduces the matched text |
| Process.SubWithoutFixesUnchanged | link_validator.py:193-205 | a link or image pass with no fix leaves the text unchanged |
| Process.PassesCount | link_validator.py:176-207 | after all passes, URLs, fixes and broken links together never exceed the links counted |
| Process.ImageVisitedByLinkPass | link_validator.py:29-33 | unless an earlier link match covers it, the link inside an image with non-empty alt text is among the matches the link pass visits and counts, with the image's alt text and target |
| Scanner.UncoveredMatchVisited | link_validator.py:205 | `re.sub` visits every match that starts at a position none of its earlier matches straddles |
| Validator.LinkValidator.constructor | link_validator.py:19-36 | a new validator holds its file, its flag and the file's directory, with all counters zero |
| Validator.LinkValidator.FindProjectRoot | link_validator.py:54-61 | the climbing loop stops at the nearest marked ancestor |
| Validator.LinkValidator.FindFileInProject | link_validator.py:51-68 | the walk loop collects exactly the project matches |
| Validator.LinkValidator.FindDocsRoot | link_validator.py:95-97 | the climbing loop stops at the nearest ancestor named "docs" |
| Validator.LinkValidator.LocateTarget | link_validator.py:91-141 | the route, absolute and relative branches compute the target the resolver specifies |
| Validator.LinkValidator.FixLocalLink | link_validator.py:77-174 | returns the emitted link, adds one to `broken_links` exactly for a broken link, and changes no other counter |
| Validator.LinkValidator.ReplaceLink | link_validator.py:181-203 | returns the visit's replacement and adds the visit's tally to the counters |
| Validator.LinkValidator.SubstituteAt | link_validator.py:181-205 | one step of the substitution loop advances and keeps the output and the counters on track with `re.sub` |
| Validator.LinkValidator.Substitute | link_validator.py:205 | the substitution loop returns the result of `re.sub` and adds its tally |
| Validator.LinkValidator.ProcessLinks | link_validator.py:176-207 | the three passes in pattern order, with their tallies added to the counters |
| Validator.LinkValidator.ValidateAndFix | link_validator.py:209-248 | returns success and the text written as the outcome specifies, and adds the outcome's tally |
| Validator.WritesOnlyChanges | link_validator.py:229-236 | the document is written exactly when it is not a dry run, it was read, it is writable and processing changed it; what is written is the processed text |
| Validator.DryRunWritesNothing | link_validator.py:229 | a dry run writes nothing and leaves the disk as it was |
| Validator.FailsOnlyOnIo | link_validator.py:209-248 | `validate_and_fix` fails exactly when the file is missing, cannot be read, or a needed write is refused |
| Validator.CountsWithoutIo | link_validator.py:209-226 | the counters grow by the tally of processing the document, or by nothing when it cannot be read |
| Validator.AfterChangesOnlyTarget | link_validator.py:229-232 | writing the document changes no other file, the tree or the writable set |
| Discovery.ScanRoot | fix_all_links.py:35-39 | the scan starts at `docs/` under the working directory exactly when it exists, and otherwise at the working directory (the validation script makes the same choice at validate_all_links.py:28-32) |
| Discovery.FindMarkdownFiles | fix_all_links.py:13-24 | the two nested loops return the Markdown files of the pruned walk in walk order (validate_all_links.py:13-24 is the same function) |
| Discovery.MarkdownOfExactly | fix_all_links.py:20-22 | a path is collected from a directory exactly when it is a file listed there ending in ".md" |
| Discovery.MarkdownInExactly | fix_all_links.py:16-22 | a path is collected exactly when some walked directory contributes it |
| Discovery.MarkdownFilesDistinct | fix_all_links.py:13-24 | on a real directory tree, `find_markdown_files` lists no file twice |
| Discovery.MarkdownFilesExactly | fix_all_links.py:13-24 | a path is found exactly when it is a ".md" file in a directory below the scan root reached without hidden directories or `node_modules` |
| Discovery.NeverBelowPruned | fix_all_links.py:18 | no file found lies below a directory whose name starts with "." or is `node_modules` |
| Batch.ValidateOne | fix_all_links.py:62-68 | a fresh validator's success, the disk after its write, and its counters, as the outcome specifies |
| Batch.RunStep | fix_all_links.py:56-74 | one more file is processed on the disk the earlier files left, and each total and list grows by that file's entry only |
| Batch.IssuesExactly | fix_all_links.py:70-71 | a file is listed with issues, with count b, exactly when its validator counted b > 0 broken links |
| Batch.ModifiedExactly | fix_all_links.py:73-74 | a file is listed as modified, with count c, exactly when it is not a dry run and its validator fixed c > 0 links |
| Batch.DryRunModifiesNone | fix_all_links.py:73-74 | a dry run lists no modified file |
| Batch.NoBrokenIffNoIssues | fix_all_links.py:67-71 | the summed broken count is zero exactly when no file has broken links, that is when the issues list is empty |
| Batch.ExitZeroIff | fix_all_links.py:101 | the status is 0 exactly when no file has broken links |
| Batch.DryRunLeavesDisk | validate_all_links.py:47-50 | a run of dry-run validators leaves the disk unchanged, and each file is checked on the original disk |
| Batch.RunReadsOriginals | fix_all_links.py:56-63 | with distinct files, each is processed as it was when the run began, and no other file changes |
| Batch.ValidatedLocal | link_validator.py:209-232 | `validate_and_fix` depends only on the tree, the writable set and the document's own text |
| FixAllLinks.FixAll | fix_all_links.py:26-101 | `main` returns the report and leaves the disk that the fold over the files found specifies |
| FixAllLinks.ExitStatus | fix_all_links.py:101 | the status is 0 or 1, 0 exactly when no file is listed with issues and exactly when the broken total is 0 |
| FixAllLinks.DryRunChangesNothing | fix_all_links.py:73-74 | with `--dry-run` no file is written and none is listed as modified |
| FixAllLinks.IssuesListed | fix_all_links.py:70-71 | a file is listed with issues exactly when it was found and its validator counted broken links |
| FixAllLinks.ReadsOriginals | fix_all_links.py:45-63 | every file found is validated on the text it had when `main` started; the tree and the writable set are unchanged, and files not found keep their text |
| FixAllLinks.ModifiedListed | fix_all_links.py:73-74 | a file is listed as modified exactly when it was found, it is not a dry run, and its validator fixed links |
| ValidateAllLinks.ValidateAll | validate_all_links.py:26-76 | `main` returns the totals, the issues list and the status the dry-run fold specifies |
| ValidateAllLinks.SameAsDryRun | validate_all_links.py:47-58 | the validation script reports what the repair script reports with `--dry-run`, which leaves the disk unchanged |
| ValidateAllLinks.ChecksOriginals | validate_all_links.py:47-76 | every file found is checked as it was when the run began, and the status is 0 exactly when no file is listed with issues |

## Left out

- Console output (`print`), `argparse` and the `--verbose` flag are left out: they only decide what is printed. The two `main` functions return a `Report` value instead of printing their summary.
- The `relative_to(project_root)` display paths are left out, because they only appear in printed output.
- The single-file command line (`link_validator.py:250-263`) and `sys.exit` are left out; both scripts' `main` return values are modelled.
- `is_valid_url` (`link_validator.py:43-49`) is left out: it makes HTTP requests and is never called.
- `Path.cwd()` is a parameter of the model (`cwd`).
- `urllib.parse.unquote` is a parameter: percent-decoding itself is not modelled.
- Text encodings are not modelled. A file that cannot be read or decoded as UTF-8 is one absent from `Disk.contents`. A refused write is a file absent from `Disk.writable`.
- Validator.LinkValidator.ValidateAndFix: it returns the text to write, and the caller (`Batch.ValidateOne`) applies it to the `Disk` value. A write that fails after `open` has truncated the file is not modelled.
- Urls.UrlSplit: the `ValueError`s that CPython's `urlsplit` raises are not modelled. It raises for an unbalanced '[' or ']' in the network location, for an invalid bracketed host such as `http://[abc]/`, and for a network location that NFKC normalisation changes into one with a separator. The source does not catch this exception: it aborts the validator, and `fix_all_links.main` with it, after earlier files may already have been written. The model instead treats such a link as `urlsplit` would split it without the check.
- `get_relative_path`'s `ValueError` fallback (`link_validator.py:74-75`) is not modelled. It only occurs between different Windows drives, and all paths here are on one tree.
- Windows paths are not modelled. `Resolver.MovedTargetExists` and the lemmas it uses require a tree whose names contain no backslash, because `get_relative_path` turns a backslash inside a name into a separator.
- Symbolic links, permissions on directories, and filesystem changes by other processes during a run are not modelled.
- The regular expressions are modelled as scanners for these three patterns only. `re.MULTILINE` is modelled for `^` and `$` in the reference pattern, and `\s` is Python's `str.isspace` set.
- The directory-search branch at `link_validator.py:112-124` is not part of the model, because `Paths.DocsRouteHasName` shows that it cannot run.
- `validate-deployment.py`, `auto_commit.py`, `deploy-wrapper.py` and `.vitepress/config.js` are not part of this model: they deploy and configure the site rather than validate its links.
