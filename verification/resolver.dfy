/**
 * The decision procedure of `LinkValidator.fix_local_link`, as pure
 * functions of the filesystem tree, the document's directory and the link
 * target, together with the directory searches it relies on: the nearest
 * `docs` ancestor, the project root, and the by-name search under it.
 * Percent-decoding (`urllib.parse.unquote`) is a parameter.
 */
module Resolver {
  import opened Wrappers
  import opened Text
  import opened Paths
  import opened FileTree
  import opened Fragment

  // ---------------------------------------------------------------------
  // Directory searches

  /** The `docs_root` loop: from `p` upwards until a directory named "docs"
      or the root. */
  function DocsRoot(p: Path): Path
  {
    if p == [] || LastName(p) == "docs" then p else DocsRoot(Parent(p))
  }

  predicate HasMarker(fs: Node, p: Path)
  {
    Exists(fs, p + [".git"]) || Exists(fs, p + ["package.json"])
  }

  /** The `project_root` loop: from `p` upwards until a directory holding
      `.git` or `package.json`; the loop stops at the root without looking
      into it. */
  function ProjectRoot(fs: Node, p: Path): Path
  {
    if p == [] || HasMarker(fs, p) then p else ProjectRoot(fs, Parent(p))
  }

  function AnyName(n: Name): bool
  {
    true
  }

  /** The `matches` list built from walk steps: `root / name` for every step
      whose files include `name`, in walk order. */
  function MatchesIn(steps: seq<Step>, name: Name): seq<Path>
  {
    if steps == [] then []
    else
      var last := steps[|steps| - 1];
      MatchesIn(steps[..|steps| - 1], name) + (if name in last.files then [last.dir + [name]] else [])
  }

  /** `find_file_in_project`: every file called `name` under the project
      root of `base`, in `os.walk` order. */
  function ProjectMatches(fs: Node, base: Path, name: Name): seq<Path>
  {
    MatchesIn(Walk(fs, ProjectRoot(fs, base), AnyName), name)
  }

  /** The sort key of the fallback: `len(str(p.relative_to(base.parent)))`. */
  function Key(p: Path, base: Path): nat
    requires IsPrefix(Parent(base), p)
  {
    |RelativeToString(p, Parent(base))|
  }

  predicate AllUnder(ms: seq<Path>, b: Path)
  {
    forall i :: 0 <= i < |ms| ==> IsPrefix(b, ms[i])
  }

  /** The keys of the matches, in order. */
  function Keys(ms: seq<Path>, base: Path): (r: seq<nat>)
    requires AllUnder(ms, Parent(base))
    ensures |r| == |ms|
    ensures forall j :: 0 <= j < |ms| ==> r[j] == Key(ms[j], base)
  {
    if ms == [] then []
    else
      var init := ms[..|ms| - 1];
      assert forall j :: 0 <= j < |init| ==> init[j] == ms[j];
      Keys(init, base) + [Key(ms[|ms| - 1], base)]
  }

  /** Where `min` stops: the first position of the smallest key. */
  function FirstMinimum(keys: seq<nat>): (k: nat)
    requires keys != []
    ensures k < |keys|
    ensures forall j :: 0 <= j < |keys| ==> keys[k] <= keys[j]
    ensures forall j :: 0 <= j < k ==> keys[k] < keys[j]
  {
    if |keys| == 1 then 0
    else
      var k := FirstMinimum(keys[..|keys| - 1]);
      if keys[|keys| - 1] < keys[k] then |keys| - 1 else k
  }

  /** `best_match`: the shortest-keyed match, or `matches[0]` when some
      match is not under `base.parent` and `relative_to` raises. */
  function BestMatch(ms: seq<Path>, base: Path): Path
    requires ms != []
  {
    if AllUnder(ms, Parent(base)) then ms[FirstMinimum(Keys(ms, base))] else ms[0]
  }

  // ---------------------------------------------------------------------
  // Locating the target of a link

  /** Where the branches of steps 2 to 4 leave a decoded path: an accepted
      `/docs/` route, or a filesystem path to probe together with the
      `Path(clean_link).name` the fallback searches for. */
  datatype Located = RouteValid | Probe(target: seq<Name>, name: Name)

  function Locate(fs: Node, base: Path, clean: string): Located
  {
    if StartsWith(clean, "/docs/") then
      var docs := DocsRoot(base);
      var route := clean[1..];
      var target := if LastName(docs) == "docs" then JoinPath(docs, route[5..]) else JoinPath(base, route);
      if IsDir(fs, target) then
        if Exists(fs, target + ["index.md"]) then RouteValid else Probe(target, NameOf(clean))
      else if Exists(fs, WithMdSuffix(target)) then RouteValid
      else Probe(target, NameOf(clean))
    else if StartsWith(clean, "/") then
      var docs := DocsRoot(base);
      if LastName(docs) == "docs" then Probe(JoinPath(docs, clean[1..]), NameOf(clean[1..]))
      else Probe(JoinPath(base, clean[1..]), NameOf(clean))
    else
      var rel := if StartsWith(clean, "./") then clean[2..] else clean;
      Probe(JoinPath(base, rel), NameOf(rel))
  }

  /** What `fix_local_link` decides for one link. */
  datatype Fix =
    | Kept            // the link is returned as it is
    | Moved(path: string)  // the link becomes `path` followed by the anchor
    | Broken          // the link is returned as it is and counted as broken

  /** `fix_local_link` as a function of the filesystem tree `fs`, the
      document's directory `base`, and the decoder `unquote`. */
  function FixLink(fs: Node, base: Path, link: string, unquote: string -> string): Fix
  {
    var clean := PathPart(link);
    if clean == "" then Kept
    else
      match Locate(fs, base, unquote(clean))
      case RouteValid => Kept
      case Probe(target, name) =>
        if Exists(fs, target) then
          var p := DotPrefixed(RelativeLink(target, base));
          if p != BeforeHash(link) then Moved(p) else Kept
        else
          var ms := if name != "" then ProjectMatches(fs, base, name) else [];
          if ms != [] then Moved(DotPrefixed(RelativeLink(BestMatch(ms, base), base)))
          else Broken
  }

  /** The string `fix_local_link` returns. */
  function Emitted(f: Fix, link: string): string
  {
    match f
    case Moved(p) => p + Anchor(link)
    case _ => link
  }

  // ---------------------------------------------------------------------
  // Lemmas

  /** A link whose path part is empty is returned as it is and counts as
      neither fixed nor broken. */
  lemma EmptyPathKept(fs: Node, base: Path, link: string, unquote: string -> string)
    requires forall i :: 0 <= i < |BeforeHash(link)| ==> IsSpace(BeforeHash(link)[i])
    ensures FixLink(fs, base, link, unquote) == Kept
    ensures Emitted(FixLink(fs, base, link, unquote), link) == link
  {
    StripIsEmptyIffAllSpace(BeforeHash(link));
  }

  /** A moved link is written "./" + path, and keeps the anchor. */
  lemma MovedShape(fs: Node, base: Path, link: string, unquote: string -> string)
    requires FixLink(fs, base, link, unquote).Moved?
    ensures var p := FixLink(fs, base, link, unquote).path;
      && StartsWith(p, "./")
      && Emitted(FixLink(fs, base, link, unquote), link) == p + Anchor(link)
      && EndsWith(Emitted(FixLink(fs, base, link, unquote), link), Anchor(link))
  {
    hide Locate, ProjectMatches, BestMatch, RelativeLink, PathPart;
    var p := FixLink(fs, base, link, unquote).path;
    assert (p + Anchor(link))[|p|..] == Anchor(link);
  }


  /** Broken exactly when the path part is not empty, the target is not
      an accepted route, does not exist, and nothing of its name lies under
      the project root. */
  lemma BrokenExactly(fs: Node, base: Path, link: string, unquote: string -> string)
    ensures FixLink(fs, base, link, unquote).Broken? <==>
      && PathPart(link) != ""
      && Locate(fs, base, unquote(PathPart(link))).Probe?
      && var loc := Locate(fs, base, unquote(PathPart(link)));
      && !Exists(fs, loc.target)
      && (loc.name == "" || ProjectMatches(fs, base, loc.name) == [])
  {
  }

  /** An existing target becomes "./" + its relative path, and the link is
      kept exactly when that is already its path part. */
  lemma ExistingTargetNormalised(fs: Node, base: Path, link: string, unquote: string -> string)
    requires PathPart(link) != ""
    requires Locate(fs, base, unquote(PathPart(link))).Probe?
    requires Exists(fs, Locate(fs, base, unquote(PathPart(link))).target)
    ensures var p := DotPrefixed(RelativeLink(Locate(fs, base, unquote(PathPart(link))).target, base));
      && (FixLink(fs, base, link, unquote) == Kept <==> p == BeforeHash(link))
      && (FixLink(fs, base, link, unquote) != Kept ==> FixLink(fs, base, link, unquote) == Moved(p))
  {
  }

  /** A `/docs/` route is accepted when its mapped path is a directory with
      an `index.md`, or when that path with the ".md" suffix exists; it is
      then returned unchanged. */
  lemma DocsRouteAccepted(fs: Node, base: Path, clean: string)
    requires StartsWith(clean, "/docs/")
    ensures var docs := DocsRoot(base);
      var target := if LastName(docs) == "docs" then JoinPath(docs, clean[6..]) else JoinPath(base, clean[1..]);
      Locate(fs, base, clean) == RouteValid <==>
        (if IsDir(fs, target) then Exists(fs, target + ["index.md"]) else Exists(fs, WithMdSuffix(target)))
  {
    assert clean[1..][5..] == clean[6..];
  }

  /** A link whose decoded path is an accepted `/docs/` route -- a
      directory with an `index.md`, or, when the mapped path is not a
      directory, one whose ".md" file exists -- is returned unchanged and
      counted neither as fixed nor as broken. */
  lemma AcceptedRouteKept(fs: Node, base: Path, link: string, unquote: string -> string)
    requires StartsWith(unquote(PathPart(link)), "/docs/")
    ensures var clean := unquote(PathPart(link));
      var docs := DocsRoot(base);
      var target := if LastName(docs) == "docs" then JoinPath(docs, clean[6..]) else JoinPath(base, clean[1..]);
      (if IsDir(fs, target) then Exists(fs, target + ["index.md"]) else Exists(fs, WithMdSuffix(target))) ==>
        && FixLink(fs, base, link, unquote) == Kept
        && Emitted(FixLink(fs, base, link, unquote), link) == link
  {
    hide Locate;
    DocsRouteAccepted(fs, base, unquote(PathPart(link)));
  }

  /** The route branch of a failed `/docs/` path searches for
      `Path(clean_link).name`, which is never empty: the directory search
      the source guards with `if not filename` cannot run. */
  lemma DocsRouteSearchesByName(fs: Node, base: Path, clean: string)
    requires StartsWith(clean, "/docs/") && Locate(fs, base, clean).Probe?
    ensures Locate(fs, base, clean).name == NameOf(clean) != ""
  {
    DocsRouteHasName(clean);
  }

  /** `DocsRoot` is the nearest ancestor named "docs", or the root when
      there is none. */
  lemma {:induction false} DocsRootNearest(p: Path)
    ensures IsPrefix(DocsRoot(p), p)
    ensures DocsRoot(p) == [] || LastName(DocsRoot(p)) == "docs"
    ensures forall k :: |DocsRoot(p)| < k <= |p| ==> LastName(p[..k]) != "docs"
    decreases |p|
  {
    if p != [] && LastName(p) != "docs" {
      var q := Parent(p);
      DocsRootNearest(q);
      forall k | |DocsRoot(p)| < k <= |p|
        ensures LastName(p[..k]) != "docs"
      {
        if k < |p| {
          assert p[..k] == q[..k];
        } else {
          assert p[..k] == p;
        }
      }
    }
  }

  /** `ProjectRoot` is the nearest ancestor, starting with `p` itself,
      holding a marker; the root when no ancestor below it does. */
  lemma {:induction false} ProjectRootNearest(fs: Node, p: Path)
    ensures IsPrefix(ProjectRoot(fs, p), p)
    ensures ProjectRoot(fs, p) == [] || HasMarker(fs, ProjectRoot(fs, p))
    ensures forall k :: |ProjectRoot(fs, p)| < k <= |p| ==> !HasMarker(fs, p[..k])
    decreases |p|
  {
    if p != [] && !HasMarker(fs, p) {
      ProjectRootNearest(fs, Parent(p));
      forall k | |ProjectRoot(fs, p)| < k <= |p|
        ensures !HasMarker(fs, p[..k])
      {
        if k < |p| {
          assert p[..k] == Parent(p)[..k];
        } else {
          assert p[..k] == p;
        }
      }
    }
  }

  /** What `MatchesIn` collects: `s.dir + [name]` for exactly the steps `s`
      listing `name`. */
  lemma {:induction false} MatchesInExactly(steps: seq<Step>, name: Name, m: Path)
    ensures m in MatchesIn(steps, name) <==>
      exists s :: s in steps && name in s.files && m == s.dir + [name]
    decreases |steps|
  {
    if steps != [] {
      var init := steps[..|steps| - 1];
      var last := steps[|steps| - 1];
      MatchesInExactly(init, name, m);
      assert steps == init + [last];
      if m in MatchesIn(steps, name) && m !in MatchesIn(init, name) {
        assert name in last.files && m == last.dir + [name];
      }
    }
  }

  /** `find_file_in_project` finds exactly the files called `name` under
      the project root. */
  lemma ProjectMatchesExactly(fs: Node, base: Path, name: Name, m: Path)
    requires WellFormed(fs) && IsDirAt(fs, ProjectRoot(fs, base))
    ensures m in ProjectMatches(fs, base, name) <==>
      && IsPrefix(ProjectRoot(fs, base), Parent(m)) && m != []
      && IsDirAt(fs, Parent(m)) && LastName(m) == name && name in Lookup(fs, Parent(m)).value.files
  {
    var root := ProjectRoot(fs, base);
    var steps := Walk(fs, root, AnyName);
    MatchesInExactly(steps, name, m);
    if m in ProjectMatches(fs, base, name) {
      var s :| s in steps && name in s.files && m == s.dir + [name];
      WalkSound(fs, root, AnyName, s);
      assert Parent(m) == s.dir;
    }
    if && IsPrefix(root, Parent(m)) && m != [] && IsDirAt(fs, Parent(m))
       && LastName(m) == name && name in Lookup(fs, Parent(m)).value.files
    {
      var d := Parent(m);
      WalkComplete(fs, root, AnyName, d);
      var s := Step(d, Lookup(fs, d).value.files);
      assert s in steps && name in s.files && m == s.dir + [name];
    }
  }

  /** The fallback picks one of the matches: when every match lies under
      `base.parent`, one of least key, the first such in walk order;
      otherwise `relative_to` raises for some match and the first match in
      walk order is taken. */
  lemma BestMatchShortest(ms: seq<Path>, base: Path)
    requires ms != []
    ensures BestMatch(ms, base) in ms
    ensures AllUnder(ms, Parent(base)) ==>
      var b := BestMatch(ms, base);
      && (forall j :: 0 <= j < |ms| ==> Key(b, base) <= Key(ms[j], base))
      && (exists k :: 0 <= k < |ms| && ms[k] == b && forall j :: 0 <= j < k ==> Key(b, base) < Key(ms[j], base))
    ensures !AllUnder(ms, Parent(base)) ==> BestMatch(ms, base) == ms[0]
  {
    if AllUnder(ms, Parent(base)) {
      var k := FirstMinimum(Keys(ms, base));
      assert ms[k] == BestMatch(ms, base);
    }
  }

  /** The relative link `get_relative_path` gives for any path to an
      existing entry leads back to that entry. */
  lemma RelativeLinkReaches(fs: Node, base: Path, x: seq<Name>)
    requires WellFormed(fs) && FreeOf(fs, '\\') && IsDirAt(fs, base)
    requires IsFileAt(fs, Normalize(x)) || IsDirAt(fs, Normalize(x))
    ensures Normalize(JoinPath(base, DotPrefixed(RelativeLink(x, base)))) == Normalize(x)
  {
    var e := Normalize(x);
    EntryPlain(fs, e, '\\');
    EntryPlain(fs, base, '\\');
    NormalizeFromAllPlain(e);
    assert RelComponents(x, base) == RelComponents(e, base);
    RelativeLinkWithoutBackslash(e, base);
    RelPathRoundTrip(e, base);
  }

  /** A link that is moved points, once joined to the document's directory
      and normalised, at a file or directory that exists. */
  lemma MovedTargetExists(fs: Node, base: Path, link: string, unquote: string -> string)
    requires WellFormed(fs) && FreeOf(fs, '\\') && IsDirAt(fs, base)
    requires FixLink(fs, base, link, unquote).Moved?
    ensures var q := Normalize(JoinPath(base, FixLink(fs, base, link, unquote).path));
      IsFileAt(fs, q) || IsDirAt(fs, q)
  {
    var loc := Locate(fs, base, unquote(PathPart(link)));
    MovedCases(fs, base, link, unquote);
    if Exists(fs, loc.target) {
      ExistingReached(fs, base, loc.target);
    } else {
      var ms := ProjectMatches(fs, base, loc.name);
      MatchReached(fs, base, loc.name, BestMatch(ms, base));
    }
  }

  /** `fix_local_link` returns a string other than the link only when it
      moved the link, and the new path then leads, from the document's
      directory, to an entry that exists. */
  lemma ChangedLinkReaches(fs: Node, base: Path, link: string, unquote: string -> string)
    requires WellFormed(fs) && FreeOf(fs, '\\') && IsDirAt(fs, base)
    requires Emitted(FixLink(fs, base, link, unquote), link) != link
    ensures FixLink(fs, base, link, unquote).Moved?
    ensures var q := Normalize(JoinPath(base, FixLink(fs, base, link, unquote).path));
      IsFileAt(fs, q) || IsDirAt(fs, q)
  {
    hide FixLink;
    MovedTargetExists(fs, base, link, unquote);
  }

  /** Where a moved link comes from: an existing target, or a match of
      the fallback search. */
  lemma MovedCases(fs: Node, base: Path, link: string, unquote: string -> string)
    requires FixLink(fs, base, link, unquote).Moved?
    ensures var loc := Locate(fs, base, unquote(PathPart(link)));
      var p := FixLink(fs, base, link, unquote).path;
      && loc.Probe?
      && (Exists(fs, loc.target) ==> p == DotPrefixed(RelativeLink(loc.target, base)))
      && (!Exists(fs, loc.target) ==>
            && loc.name != "" && ProjectMatches(fs, base, loc.name) != []
            && p == DotPrefixed(RelativeLink(BestMatch(ProjectMatches(fs, base, loc.name), base), base)))
  {
  }

  lemma ExistingReached(fs: Node, base: Path, target: seq<Name>)
    requires WellFormed(fs) && FreeOf(fs, '\\') && IsDirAt(fs, base)
    requires Exists(fs, target)
    ensures var q := Normalize(JoinPath(base, DotPrefixed(RelativeLink(target, base))));
      IsFileAt(fs, q) || IsDirAt(fs, q)
  {
    ResolveIsNormalize(fs, [], target);
    ResolvedIsEntry(fs, [], target);
    RelativeLinkReaches(fs, base, target);
  }

  lemma MatchReached(fs: Node, base: Path, name: Name, b: Path)
    requires WellFormed(fs) && FreeOf(fs, '\\') && IsDirAt(fs, base)
    requires b in ProjectMatches(fs, base, name)
    ensures var q := Normalize(JoinPath(base, DotPrefixed(RelativeLink(b, base))));
      IsFileAt(fs, q) || IsDirAt(fs, q)
  {
    ProjectRootNearest(fs, base);
    DirPrefix(fs, ProjectRoot(fs, base), base);
    ProjectMatchesExactly(fs, base, name, b);
    assert IsFileAt(fs, b);
    EntryPlain(fs, b, '\\');
    NormalizeFromAllPlain(b);
    RelativeLinkReaches(fs, base, b);
  }
}
